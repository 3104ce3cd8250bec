/** When summaries exist: the recursion ends, and which types have no summary. */
module SummaryLaws {
  import opened Wrappers
  import opened Acyclic
  import opened Summary

  // ---- The recursion ends ----

  /** Every cycle of types goes through a pointer or reference, and through a type with members. */
  ghost predicate CyclesAreOrdinary(g: Graph) {
    forall p: seq<Id> :: IsCycle(TypeGraph(g), p) ==>
      && (exists i :: 0 <= i < |p| && p[i] in g && g[p[i]].AddressHolding?)
      && (exists i :: 0 <= i < |p| && p[i] in g && g[p[i]].WithMembers?)
  }

  /** The base types of enumerations and subranges are not pointers, nor is the definition of a declaration. */
  ghost predicate BasesAreOrdinary(g: Graph)
    requires HasNames(g)
  {
    forall t :: t in g ==>
      && (g[t].Enumeration? && IsRef(g, g[t].base) ==> !HoldsAddress(g, g[t].base))
      && (g[t].Subrange? && IsRef(g, g[t].base) ==> !HoldsAddress(g, g[t].base))
      && (g[t].WithMembers? && g[t].declaration && IsRef(g, g[t].definition) ==> !HoldsAddress(g, g[t].definition))
  }

  lemma NamesEnd(g: Graph)
    requires IsGraph(g) && CyclesAreOrdinary(g)
    ensures HasNames(g)
  {
    hide NameTargets, Targets;
    forall p: seq<Id> | IsCycle(NameGraph(g), p) ensures false {
      NameCycleIsCycle(g, p);
      assert IsCycle(TypeGraph(g), p);
      var i: nat :| i < |p| && p[i] in g && g[p[i]].WithMembers?;
      var j: nat := if i < |p| - 1 then i else 0;
      assert HasEdge(NameGraph(g), p[j], p[j + 1]);
      NoNameTargets(g[p[j]]);
    }
  }

  lemma NoNameTargets(d: Die)
    ensures d.WithMembers? ==> NameTargets(d) == []
    ensures forall v :: v in NameTargets(d) ==> v in Targets(d)
  {
  }

  lemma NameCycleIsCycle(g: Graph, p: seq<Id>)
    requires IsCycle(NameGraph(g), p)
    ensures IsCycle(TypeGraph(g), p)
  {
    hide NameTargets, Targets;
    forall i: nat | i + 1 < |p| ensures HasEdge(TypeGraph(g), p[i], p[i + 1]) {
      assert HasEdge(NameGraph(g), p[i], p[i + 1]);
      NoNameTargets(g[p[i]]);
    }
  }

  /** A part that is a pointer under typedefs is a part of such a type only. */
  lemma PointerPartsArePointers(g: Graph, t: Id, v: Id)
    requires HasNames(g) && BasesAreOrdinary(g) && t in g && v in Parts(g, t) && HoldsAddress(g, Some(v))
    ensures HoldsAddress(g, Some(t))
  {
    hide HasNames, UltimateCount, Name;
    TargetsIn(g, t);
    match g[t]
    case ArrayOf(_, _) =>
      ElementOfPointer(g, Some(v));
    case _ =>
  }

  lemma {:induction false} ElementOfPointer(g: Graph, r: Ref)
    requires HasNames(g) && IsRef(g, r) && HoldsAddress(g, r)
    ensures IsAddress(g, UltimateElement(g, r))
    decreases NameRank(g, r)
  {
    hide HasNames, NameRank;
    UnderEdge(g, r.value);
    if g[r.value].Chain? { ElementOfPointer(g, g[r.value].target); }
  }

  lemma {:induction false} PointersAllTheWay(g: Graph, p: seq<Id>, i: nat)
    requires HasNames(g) && BasesAreOrdinary(g) && IsWalk(PartGraph(g), p) && i < |p|
    requires p[i] in g && HoldsAddress(g, Some(p[i]))
    ensures forall j :: 0 <= j <= i ==> p[j] in g && HoldsAddress(g, Some(p[j]))
  {
    hide HasNames, HoldsAddress, BasesAreOrdinary;
    if i > 0 {
      assert HasEdge(PartGraph(g), p[i - 1], p[i - 1 + 1]);
      PointerPartsArePointers(g, p[i - 1], p[i]);
      PointersAllTheWay(g, p, i - 1);
    }
  }

  lemma PartCycleIsCycle(g: Graph, p: seq<Id>)
    requires HasNames(g) && IsCycle(PartGraph(g), p)
    ensures IsCycle(TypeGraph(g), p)
  {
    hide HasNames, Targets, Parts;
    forall i: nat | i + 1 < |p| ensures HasEdge(TypeGraph(g), p[i], p[i + 1]) {
      assert HasEdge(PartGraph(g), p[i], p[i + 1]);
    }
  }

  lemma MembersHoldNoAddress(g: Graph, t: Id)
    requires HasNames(g) && t in g && g[t].WithMembers?
    ensures !HoldsAddress(g, Some(t))
  {
  }

  lemma AddressHolds(g: Graph, t: Id)
    requires HasNames(g) && t in g && g[t].AddressHolding?
    ensures HoldsAddress(g, Some(t))
  {
  }

  /** The recursion of summaries ends on any graph whose cycles go through a pointer and a type with members,
      because pointers inside types with members are cut off. */
  lemma CyclesTerminate(g: Graph)
    requires IsGraph(g) && CyclesAreOrdinary(g) && HasNames(g) && BasesAreOrdinary(g)
    ensures Terminates(g)
  {
    hide HasNames, HoldsAddress, BasesAreOrdinary, IsGraph, PartGraph, IsWalk;
    forall p: seq<Id> | IsCycle(PartGraph(g), p) ensures false {
      PartCycleIsCycle(g, p);
      assert IsCycle(TypeGraph(g), p);
      var i: nat :| i < |p| && p[i] in g && g[p[i]].AddressHolding?;
      var j: nat :| j < |p| && p[j] in g && g[p[j]].WithMembers?;
      AddressHolds(g, p[i]);
      PointersAllTheWay(g, p, i);
      PointersAllTheWay(g, p, |p| - 1);
      MembersHoldNoAddress(g, p[j]);
    }
  }

  // ---- Types without a summary ----

  /** A type that has no summary of itself: an unspecified one, a declaration without a definition, a pointer
      that ends at one, or an array of void. */
  predicate LacksSummary(g: Graph, t: Id)
    requires HasNames(g) && t in g
  {
    match g[t]
    case Unspecified => true
    case WithMembers(_, declaration, definition, _) => declaration && definition.None?
    case AddressHolding(_, _, _) => IsOpaque(g, UltimateReached(g, Some(t)))
    case ArrayOf(_, _) => UltimateElement(g, Some(t)).None?
    case _ => false
  }

  ghost predicate Absent(h: Hash, g: Graph, v: Id)
    requires Terminates(g)
  {
    v in g && SummaryOf(h, g, v).None?
  }

  ghost predicate PartAbsent(h: Hash, g: Graph, t: Id)
    requires Terminates(g) && HasNames(g) && t in g
  {
    exists v :: v in Parts(g, t) && Absent(h, g, v)
  }

  lemma {:induction false} TokensKeepAbsence(h: Hash, w: Word, tokens: seq<nat>)
    ensures WithTokens(h, w, tokens).None? <==> w.None?
  {
    if tokens != [] { TokensKeepAbsence(h, w, tokens[..|tokens| - 1]); }
  }

  /** Absence is absorbing: nothing that is put in makes a word present again. */
  lemma WordsKeepAbsence(h: Hash, w: Word, token: nat, tokens: seq<nat>, s: string, x: Word)
    ensures WithToken(h, w, token).None? <==> w.None?
    ensures WithTokens(h, w, tokens).None? <==> w.None?
    ensures WithString(h, w, s).None? <==> w.None?
    ensures WithWord(h, w, x).None? <==> w.None? || x.None?
  {
    TokensKeepAbsence(h, w, tokens);
    TokensKeepAbsence(h, w, Chars(s));
  }

  /** The summary of the type, if it is not a pointer, is absent. */
  ghost predicate RefAbsent(h: Hash, g: Graph, r: Ref)
    requires Terminates(g) && HasNames(g) && IsRef(g, r)
  {
    !HoldsAddress(g, r) && r.Some? && Absent(h, g, r.value)
  }

  lemma IncorporateAbsent(h: Hash, g: Graph, w: Word, r: Ref, t: Id)
    requires Terminates(g) && HasNames(g) && t in g && IsRef(g, r)
    requires !HoldsAddress(g, r) ==> PartRank(g, r) < PartRank(g, Some(t))
    ensures Incorporate(h, g, w, r, t).None? <==> w.None? || RefAbsent(h, g, r)
  {
    hide Terminates, PartRank, HasNames, HoldsAddress, Name, Concrete, SummaryOf;
    if HoldsAddress(g, r) {
      WordsKeepAbsence(h, w, 0, [], Name(g, Concrete(g, r)), None);
    }
  }

  /** The summary of one of the first k parameters is absent. */
  ghost predicate ParamAbsent(h: Hash, g: Graph, t: Id, k: nat)
    requires Terminates(g) && HasNames(g) && t in g && g[t].Subprogram? && k <= |g[t].params|
  {
    exists j :: 0 <= j < k && IsRef(g, g[t].params[j]) && RefAbsent(h, g, g[t].params[j])
  }

  lemma ParamAbsentStep(h: Hash, g: Graph, t: Id, k: nat)
    requires Terminates(g) && HasNames(g) && t in g && g[t].Subprogram? && 0 < k <= |g[t].params|
    requires IsRef(g, g[t].params[k - 1])
    ensures ParamAbsent(h, g, t, k) <==> ParamAbsent(h, g, t, k - 1) || RefAbsent(h, g, g[t].params[k - 1])
  {
    hide Terminates, HasNames, RefAbsent, IsRef;
  }

  lemma {:induction false} ParamsAbsent(h: Hash, g: Graph, w: Word, t: Id, k: nat)
    requires Terminates(g) && HasNames(g) && t in g && g[t].Subprogram? && k <= |g[t].params|
    ensures WithParams(h, g, w, t, k).None? <==> w.None? || ParamAbsent(h, g, t, k)
  {
    hide Terminates, PartRank, HasNames, HoldsAddress, RefAbsent, Incorporate, IsRef;
    if k > 0 {
      hide ParamAbsent;
      var r := g[t].params[k - 1];
      ParamsAbsent(h, g, w, t, k - 1);
      ParamDrops(g, t, r);
      ParamAbsentStep(h, g, t, k);
      IncorporateAbsent(h, g, WithParams(h, g, w, t, k - 1), r, t);
    }
  }

  lemma {:induction false} MembersAbsent(h: Hash, g: Graph, w: Word, t: Id, k: nat)
    requires Terminates(g) && HasNames(g) && t in g && g[t].WithMembers? && !g[t].declaration && k <= |g[t].members|
    ensures forall j :: 0 <= j < k && Counts(g[t].members[j]) ==> g[t].members[j].typ in g
    ensures WithMembersUpTo(h, g, w, t, k).None?
            <==> w.None? || exists j ::
              0 <= j < k && Counts(g[t].members[j]) && RefAbsent(h, g, Some(g[t].members[j].typ))
  {
    hide Terminates, PartRank, HasNames, HoldsAddress, RefAbsent, Incorporate;
    if k > 0 {
      MembersAbsent(h, g, w, t, k - 1);
      var m := g[t].members[k - 1];
      if Counts(m) {
        MemberDrops(g, t, k - 1);
        var before := WithToken(h, WithMembersUpTo(h, g, w, t, k - 1), m.offset.value);
        IncorporateAbsent(h, g, before, Some(m.typ), t);
      }
    }
  }

  lemma {:induction false} InListed(rs: seq<Ref>, v: Id)
    requires v in AllListed(rs)
    ensures exists j :: 0 <= j < |rs| && rs[j] == Some(v)
  {
    if v !in Listed(rs[0]) {
      InListed(rs[1..], v);
      var j :| 0 <= j < |rs[1..]| && rs[1..][j] == Some(v);
      assert rs[j + 1] == Some(v);
    }
  }

  lemma {:induction false} InCounted(ms: seq<Member>, v: Id)
    requires v in CountedTypes(ms)
    ensures exists j :: 0 <= j < |ms| && Counts(ms[j]) && ms[j].typ == v
  {
    var last := ms[|ms| - 1];
    if !(Counts(last) && last.typ == v) {
      InCounted(ms[..|ms| - 1], v);
      var j :| 0 <= j < |ms| - 1 && Counts(ms[..|ms| - 1][j]) && ms[..|ms| - 1][j].typ == v;
      assert Counts(ms[j]) && ms[j].typ == v;
    }
  }

  lemma SubprogramAbsent(h: Hash, g: Graph, t: Id)
    requires Terminates(g) && HasNames(g) && t in g && g[t].Subprogram?
    ensures SummaryOf(h, g, t).None? <==> PartAbsent(h, g, t)
  {
    hide Terminates, PartRank, HasNames, HoldsAddress, Absent, Incorporate, WithTokens, WithParams;
    var ret, n := g[t].ret, |g[t].params|;
    ParamDrops(g, t, ret);
    var first := Incorporate(h, g, Some(0), ret, t);
    IncorporateAbsent(h, g, Some(0), ret, t);
    WordsKeepAbsence(h, first, 0, [], "()", None);
    var w := WithParams(h, g, WithString(h, first, "()"), t, n);
    ParamsAbsent(h, g, WithString(h, first, "()"), t, n);
    WordsKeepAbsence(h, w, 0, [], "...", None);
    if RefAbsent(h, g, ret) { assert ret.value in Parts(g, t); }
    if j :| 0 <= j < n && IsRef(g, g[t].params[j]) && RefAbsent(h, g, g[t].params[j]) {
      ParamDrops(g, t, g[t].params[j]);
      assert g[t].params[j].value in Parts(g, t);
    }
    if PartAbsent(h, g, t) {
      var v :| v in Parts(g, t) && Absent(h, g, v);
      UncutPart(g, t, v);
      if v !in Listed(ret) {
        InListed(g[t].params, v);
        var i :| 0 <= i < n && g[t].params[i] == Some(v);
        assert RefAbsent(h, g, g[t].params[i]);
      }
    }
  }

  lemma UncutPart(g: Graph, t: Id, v: Id)
    requires HasNames(g) && t in g && v in Parts(g, t)
    ensures v in g
    ensures g[t].Subprogram? ==> !HoldsAddress(g, Some(v)) && (v in Listed(g[t].ret) || v in AllListed(g[t].params))
    ensures g[t].WithMembers? && !g[t].declaration ==> !HoldsAddress(g, Some(v)) && v in CountedTypes(g[t].members)
  {
    hide HasNames, HoldsAddress;
  }

  lemma StructAbsent(h: Hash, g: Graph, t: Id)
    requires Terminates(g) && HasNames(g) && t in g && g[t].WithMembers? && !g[t].declaration
    ensures SummaryOf(h, g, t).None? <==> PartAbsent(h, g, t)
  {
    hide Terminates, PartRank, HasNames, HoldsAddress, Absent, Incorporate, WithTokens, WithMembersUpTo;
    var n, w := |g[t].members|, WithString(h, Some(0), g[t].name);
    WordsKeepAbsence(h, Some(0), 0, [], g[t].name, None);
    MembersAbsent(h, g, w, t, n);
    if j :| 0 <= j < n && Counts(g[t].members[j]) && RefAbsent(h, g, Some(g[t].members[j].typ)) {
      MemberDrops(g, t, j);
      assert g[t].members[j].typ in Parts(g, t);
    }
    if PartAbsent(h, g, t) {
      var v :| v in Parts(g, t) && Absent(h, g, v);
      UncutPart(g, t, v);
      InCounted(g[t].members, v);
    }
  }

  lemma ChainIsConcrete(h: Hash, g: Graph, t: Id)
    requires Terminates(g) && HasNames(g) && t in g && g[t].Chain?
    ensures SummaryOf(h, g, t) == SummaryRef(h, g, Concrete(g, Some(t)))
  {
    hide Terminates, PartRank, HasNames, Concrete;
  }

  lemma ChainAbsent(h: Hash, g: Graph, t: Id)
    requires Terminates(g) && HasNames(g) && t in g && g[t].Chain?
    ensures SummaryOf(h, g, t).None? <==> PartAbsent(h, g, t)
  {
    hide Terminates, PartRank, HasNames, SummaryOf;
    UnderEdge(g, t);
    ChainIsConcrete(h, g, t);
    var r := g[t].target;
    assert Concrete(g, Some(t)) == Concrete(g, r);
    assert Parts(g, t) == Listed(r);
    if r.Some? {
      if g[r.value].Chain? { ChainIsConcrete(h, g, r.value); }
      assert r.value in Parts(g, t);
    }
  }

  lemma {:induction false} ElementOfConcrete(g: Graph, r: Ref)
    requires HasNames(g) && IsRef(g, r)
    ensures UltimateElement(g, Concrete(g, r)) == UltimateElement(g, r)
    decreases NameRank(g, r)
  {
    hide HasNames, NameRank;
    if r.Some? && g[r.value].Chain? {
      UnderEdge(g, r.value);
      ElementOfConcrete(g, g[r.value].target);
    }
  }

  /** An array lacks a summary when its ultimate element type does. */
  lemma ElementAbsent(h: Hash, g: Graph, t: Id)
    requires Terminates(g) && HasNames(g) && t in g && !IsAddress(g, UltimateElement(g, Some(t)))
    requires g[t].Chain? || g[t].ArrayOf? || UltimateElement(g, Some(t)) == Some(t)
    ensures UltimateElement(g, Some(t)).Some? ==> (Absent(h, g, t) <==> Absent(h, g, UltimateElement(g, Some(t)).value))
    ensures g[t].ArrayOf? && UltimateElement(g, Some(t)).None? ==> Absent(h, g, t)
  {
    hide Terminates, PartRank, HasNames, SummaryOf, UltimateElement;
    ElementOfConcrete(g, Some(t));
    var c := Concrete(g, Some(t));
    if g[t].Chain? { ChainIsConcrete(h, g, t); }
    if c.Some? {
      if g[c.value].ArrayOf? { ArrayOfElement(h, g, c.value); } else { ElementOfOther(g, c); }
    } else {
      ElementOfOther(g, c);
    }
  }

  lemma ElementOfOther(g: Graph, r: Ref)
    requires HasNames(g) && IsRef(g, r) && (r.Some? ==> !g[r.value].Chain? && !g[r.value].ArrayOf?)
    ensures UltimateElement(g, r) == r
  {
  }

  lemma ArrayOfElement(h: Hash, g: Graph, t: Id)
    requires Terminates(g) && HasNames(g) && t in g && g[t].ArrayOf? && !IsAddress(g, UltimateElement(g, Some(t)))
    ensures SummaryOf(h, g, t).None?
            <==> UltimateElement(g, Some(t)).None? || Absent(h, g, UltimateElement(g, Some(t)).value)
  {
    hide Terminates, PartRank, HasNames, UltimateElement, UltimateCount;
  }

  lemma ArrayAbsent(h: Hash, g: Graph, t: Id)
    requires Terminates(g) && HasNames(g) && t in g && g[t].ArrayOf?
    ensures SummaryOf(h, g, t).None? <==> LacksSummary(g, t) || PartAbsent(h, g, t)
  {
    hide Terminates, PartRank, HasNames, SummaryOf, UltimateElement, WithTokens;
    var el := UltimateElement(g, Some(t));
    if IsAddress(g, el) {
      AddressArrayPresent(h, g, t);
      assert Parts(g, t) == [];
    } else {
      ElementAbsent(h, g, t);
      if el.Some? {
        ElementUnder(g, t);
        var v := g[t].elem.value;
        assert Parts(g, t) == [v];
        assert v in Parts(g, t);
        ElementAbsent(h, g, v);
      }
    }
  }

  lemma ElementUnder(g: Graph, t: Id)
    requires HasNames(g) && t in g && g[t].ArrayOf? && UltimateElement(g, Some(t)).Some?
    ensures g[t].elem.Some? && g[t].elem.value in g
    ensures var v := g[t].elem.value;
            UltimateElement(g, Some(v)) == UltimateElement(g, Some(t))
            && (g[v].Chain? || g[v].ArrayOf? || UltimateElement(g, Some(v)) == Some(v))
  {
    hide HasNames, NameRank;
    UnderEdge(g, t);
  }

  lemma AddressArrayPresent(h: Hash, g: Graph, t: Id)
    requires Terminates(g) && HasNames(g) && t in g && g[t].ArrayOf? && IsAddress(g, UltimateElement(g, Some(t)))
    ensures SummaryOf(h, g, t).Some?
  {
    hide Terminates, PartRank, HasNames, WithTokens;
    var el := UltimateElement(g, Some(t));
    WordsKeepAbsence(h, Some(0), 0, [], Name(g, el), None);
  }

  /** A type with one part, or none, that is neither a typedef nor an array. */
  lemma SimpleAbsent(h: Hash, g: Graph, t: Id)
    requires Terminates(g) && HasNames(g) && t in g && !g[t].Chain? && !g[t].ArrayOf? && !g[t].Subprogram?
    requires g[t].WithMembers? ==> g[t].declaration
    ensures SummaryOf(h, g, t).None? <==> LacksSummary(g, t) || PartAbsent(h, g, t)
  {
    hide Terminates, PartRank, HasNames, WithTokens;
    match g[t]
    case Base(_, tokens) => TokensKeepAbsence(h, Some(0), [TAG_base_type] + tokens);
    case StringOf(len) => TokensKeepAbsence(h, Some(0), [TAG_string_type, len]);
    case Unspecified =>
    case Enumeration(name, tokens, base) =>
      WordsKeepAbsence(h, Some(0), 0, [], name, None);
      TokensKeepAbsence(h, WithString(h, Some(0), name), tokens);
      OnePart(h, g, t, base);
    case Subrange(tokens, _, base) =>
      OnePart(h, g, t, base);
      TokensKeepAbsence(h, if base.None? then Some(0) else WithWord(h, Some(0), SummaryRef(h, g, base)), tokens);
    case AddressHolding(tag, size, target) =>
      OnePart(h, g, t, target);
      TokensKeepAbsence(h, Some(0), [tag, size, 0]);
    case WithMembers(_, _, definition, _) => OnePart(h, g, t, definition);
  }

  lemma OnePart(h: Hash, g: Graph, t: Id, r: Ref)
    requires Terminates(g) && HasNames(g) && t in g && Parts(g, t) == Listed(r)
    ensures IsRef(g, r) && (PartAbsent(h, g, t) <==> SummaryRef(h, g, r).None?)
  {
    hide Terminates, HasNames, Parts, SummaryOf;
    if r.Some? {
      assert r.value in Parts(g, t);
      RefDrops(g, t, r);
    }
  }

  /** A type has no summary exactly when it lacks one of itself or one of its parts has none. */
  lemma AbsentStep(h: Hash, g: Graph, t: Id)
    requires Terminates(g) && HasNames(g) && t in g
    ensures SummaryOf(h, g, t).None? <==> LacksSummary(g, t) || PartAbsent(h, g, t)
  {
    hide Terminates, HasNames, SummaryOf, PartAbsent;
    if g[t].Chain? { ChainAbsent(h, g, t); }
    else if g[t].ArrayOf? { ArrayAbsent(h, g, t); }
    else if g[t].Subprogram? { SubprogramAbsent(h, g, t); }
    else if g[t].WithMembers? && !g[t].declaration { StructAbsent(h, g, t); }
    else { SimpleAbsent(h, g, t); }
  }

  /** A walk by parts leads from the type to one that lacks a summary. */
  ghost predicate ContainsLacking(g: Graph, t: Id)
    requires HasNames(g)
  {
    exists p: seq<Id> :: IsWalk(PartGraph(g), p) && p[0] == t && p[|p| - 1] in g && LacksSummary(g, p[|p| - 1])
  }

  /** A type has no summary exactly when it contains one that lacks it, however deep, but not inside a pointer
      that is inside something else. */
  lemma {:induction false} AbsentIffContainsLacking(h: Hash, g: Graph, t: Id)
    requires Terminates(g) && HasNames(g) && t in g
    ensures SummaryOf(h, g, t).None? <==> ContainsLacking(g, t)
    decreases PartRank(g, Some(t))
  {
    hide HasNames, SummaryOf, LacksSummary, PartRank, Parts, Terminates;
    AbsentStep(h, g, t);
    forall v | v in Parts(g, t) ensures v in g && (SummaryOf(h, g, v).None? <==> ContainsLacking(g, v)) {
      PartDrops(g, t, v);
      AbsentIffContainsLacking(h, g, v);
    }
    ContainsStep(g, t);
  }

  lemma ContainsStep(g: Graph, t: Id)
    requires HasNames(g) && t in g
    ensures ContainsLacking(g, t) <==> LacksSummary(g, t) || exists v :: v in Parts(g, t) && ContainsLacking(g, v)
  {
    hide HasNames, LacksSummary, Parts, ContainsLacking;
    if LacksSummary(g, t) { ContainsItself(g, t); }
    if v :| v in Parts(g, t) && ContainsLacking(g, v) { ContainsPart(g, t, v); }
    if ContainsLacking(g, t) && !LacksSummary(g, t) {
      var v := ContainedInPart(g, t);
    }
  }

  lemma ContainsItself(g: Graph, t: Id)
    requires HasNames(g) && t in g && LacksSummary(g, t)
    ensures ContainsLacking(g, t)
  {
    hide HasNames, LacksSummary, Parts;
    assert IsWalk(PartGraph(g), [t]);
  }

  lemma ContainsPart(g: Graph, t: Id, v: Id)
    requires HasNames(g) && t in g && v in Parts(g, t) && ContainsLacking(g, v)
    ensures ContainsLacking(g, t)
  {
    hide HasNames, LacksSummary, Parts, HasEdge, PartGraph;
    var p: seq<Id> :| IsWalk(PartGraph(g), p) && p[0] == v && p[|p| - 1] in g && LacksSummary(g, p[|p| - 1]);
    PrependWalk(g, t, p);
    assert ([t] + p)[|p|] == p[|p| - 1];
  }

  lemma ContainedInPart(g: Graph, t: Id) returns (v: Id)
    requires HasNames(g) && t in g && ContainsLacking(g, t) && !LacksSummary(g, t)
    ensures v in Parts(g, t) && ContainsLacking(g, v)
  {
    hide HasNames, LacksSummary, Parts;
    var p: seq<Id> :| IsWalk(PartGraph(g), p) && p[0] == t && p[|p| - 1] in g && LacksSummary(g, p[|p| - 1]);
    SubWalk(PartGraph(g), p, 1, |p|);
    FirstEdge(PartGraph(g), p);
    v := p[1];
    EdgeIsPart(g, t, v);
    hide IsWalk, HasEdge, PartGraph;
    var q := p[1..|p|];
    assert q[0] == v && q[|q| - 1] == p[|p| - 1];
  }

  lemma FirstEdge<T(!new)>(s: Succs<T>, p: seq<T>)
    requires IsWalk(s, p) && |p| > 1
    ensures HasEdge(s, p[0], p[1])
  {
    var i: nat := 0;
    assert HasEdge(s, p[i], p[i + 1]);
  }

  lemma EdgeIsPart(g: Graph, t: Id, v: Id)
    requires HasNames(g) && HasEdge(PartGraph(g), t, v)
    ensures v in Parts(g, t)
  {
  }

  lemma PrependWalk(g: Graph, t: Id, p: seq<Id>)
    requires HasNames(g) && t in g && IsWalk(PartGraph(g), p) && p[0] in Parts(g, t)
    ensures IsWalk(PartGraph(g), [t] + p)
  {
    hide HasNames, Parts;
    var q := [t] + p;
    forall i: nat | i + 1 < |q| ensures HasEdge(PartGraph(g), q[i], q[i + 1]) {
      if i > 0 { assert HasEdge(PartGraph(g), p[i - 1], p[i - 1 + 1]); }
    }
  }
}
