/** Verdicts given while other types are assumed equal: which of them are right, and which are cached wrongly. */
module AssumedEquality {
  import opened Wrappers
  import opened TypeEquality
  import Acyclic
  import S = Summary
  import L = SummaryLaws

  // ---- The assumptions that a verdict rests on ----

  /** The assumed pairs that are met while two types compare other than unequal. The assumption that the
      comparison itself makes is not among them. */
  ghost function Consulted(T: Types, rank: Node -> nat, max: nat, x: Node, y: Node, A: set<Pair>): set<Pair>
    requires Comparable(T, rank, max, x, y, A)
    decreases Pairs(T) - A, rank(x) + rank(y), 2, 0
  {
    if x == y then {}
    else if Assumed(A, x, y) then {(x, y)}
    else HalfConsulted(T, rank, max, x, y, A) + HalfConsulted(T, rank, max, y, x, A)
  }

  ghost function HalfConsulted(T: Types, rank: Node -> nat, max: nat, x: Node, y: Node, A: set<Pair>): set<Pair>
    requires Comparable(T, rank, max, x, y, A) && !Assumed(A, x, y)
    decreases Pairs(T) - A, rank(x) + rank(y), 1, 0
  {
    if !LocalTests(T[x], T[y]) then {}
    else
      assert (x, y) in Pairs(T) && (x, y) !in A;
      if T[x].shape.WithDataMembers? then ConsultedFrom(T, rank, max, x, y, A + {(x, y)}, 0) - {(x, y), (y, x)}
      else ConsultedFrom(T, rank, max, x, y, A, 0)
  }

  ghost function ConsultedFrom(T: Types, rank: Node -> nat, max: nat, x: Node, y: Node, A: set<Pair>, i: nat): set<Pair>
    requires Comparable(T, rank, max, x, y, A) && LocalTests(T[x], T[y]) && i <= |Comparisons(T[x], T[y])|
    decreases Pairs(T) - A, if T[x].shape.WithDataMembers? then 2 * max + 1 else rank(x) + rank(y), 0,
              |Comparisons(T[x], T[y])| - i
  {
    if i == |Comparisons(T[x], T[y])| then {}
    else
      ComparisonsAreTargets(T[x], T[y], i);
      var (a, b) := Comparisons(T[x], T[y])[i];
      var rest := ConsultedFrom(T, rank, max, x, y, A, i + 1);
      if a.None? || b.None? then rest else Consulted(T, rank, max, a.value, b.value, A) + rest
  }

  lemma {:induction false} ConsultedAreAssumed(T: Types, rank: Node -> nat, max: nat, x: Node, y: Node, A: set<Pair>,
                                               p: Pair)
    requires Comparable(T, rank, max, x, y, A) && p in Consulted(T, rank, max, x, y, A)
    ensures Assumed(A, p.0, p.1) && p in Pairs(T)
    decreases Pairs(T) - A, rank(x) + rank(y), 2, 0
  {
    if x != y && !Assumed(A, x, y) {
      if p in HalfConsulted(T, rank, max, x, y, A) {
        HalfConsultedAreAssumed(T, rank, max, x, y, A, p);
      } else {
        HalfConsultedAreAssumed(T, rank, max, y, x, A, p);
      }
    }
  }

  lemma {:induction false} HalfConsultedAreAssumed(T: Types, rank: Node -> nat, max: nat, x: Node, y: Node,
                                                   A: set<Pair>, p: Pair)
    requires Comparable(T, rank, max, x, y, A) && !Assumed(A, x, y) && p in HalfConsulted(T, rank, max, x, y, A)
    ensures Assumed(A, p.0, p.1) && p in Pairs(T)
    decreases Pairs(T) - A, rank(x) + rank(y), 1, 0
  {
    assert (x, y) in Pairs(T) && (x, y) !in A;
    FromAreAssumed(T, rank, max, x, y, if T[x].shape.WithDataMembers? then A + {(x, y)} else A, 0, p);
  }

  lemma {:induction false} FromAreAssumed(T: Types, rank: Node -> nat, max: nat, x: Node, y: Node, A: set<Pair>,
                                          i: nat, p: Pair)
    requires Comparable(T, rank, max, x, y, A) && LocalTests(T[x], T[y]) && i <= |Comparisons(T[x], T[y])|
    requires p in ConsultedFrom(T, rank, max, x, y, A, i)
    ensures Assumed(A, p.0, p.1) && p in Pairs(T)
    decreases Pairs(T) - A, if T[x].shape.WithDataMembers? then 2 * max + 1 else rank(x) + rank(y), 0,
              |Comparisons(T[x], T[y])| - i
  {
    hide Comparisons;
    ComparisonsAreTargets(T[x], T[y], i);
    var (a, b) := Comparisons(T[x], T[y])[i];
    if p in ConsultedFrom(T, rank, max, x, y, A, i + 1) {
      FromAreAssumed(T, rank, max, x, y, A, i + 1, p);
    } else {
      ConsultedAreAssumed(T, rank, max, a.value, b.value, A, p);
    }
  }

  /** The types compare other than unequal under the consulted assumptions alone. */
  lemma {:induction false} EqualsOnConsulted(T: Types, rank: Node -> nat, max: nat, x: Node, y: Node, A: set<Pair>,
                                             B: set<Pair>)
    requires Comparable(T, rank, max, x, y, A) && Comparable(T, rank, max, x, y, B)
    requires Equals(T, rank, max, x, y, A) != Unequal
    requires forall p :: p in Consulted(T, rank, max, x, y, A) ==> Assumed(B, p.0, p.1)
    ensures Equals(T, rank, max, x, y, B) != Unequal
    decreases Pairs(T) - A, rank(x) + rank(y), 2, 0
  {
    if x != y && !Assumed(A, x, y) && !Assumed(B, x, y) {
      MayEqualOnConsulted(T, rank, max, x, y, A, B);
      MayEqualOnConsulted(T, rank, max, y, x, A, B);
    } else if Assumed(A, x, y) && x != y {
      assert (x, y) in Consulted(T, rank, max, x, y, A);
    }
  }

  lemma {:induction false} MayEqualOnConsulted(T: Types, rank: Node -> nat, max: nat, x: Node, y: Node, A: set<Pair>,
                                               B: set<Pair>)
    requires Comparable(T, rank, max, x, y, A) && Comparable(T, rank, max, x, y, B) && !Assumed(A, x, y)
    requires !Assumed(B, x, y)
    requires MayEqual(T, rank, max, x, y, A) != Unequal
    requires forall p :: p in HalfConsulted(T, rank, max, x, y, A) ==> Assumed(B, p.0, p.1)
    ensures MayEqual(T, rank, max, x, y, B) != Unequal
    decreases Pairs(T) - A, rank(x) + rank(y), 1, 0
  {
    assert (x, y) in Pairs(T) && (x, y) !in A && (x, y) !in B;
    if T[x].shape.WithDataMembers? {
      FromOnConsulted(T, rank, max, x, y, A + {(x, y)}, B + {(x, y)}, 0);
    } else {
      FromOnConsulted(T, rank, max, x, y, A, B, 0);
    }
  }

  lemma {:induction false} FromOnConsulted(T: Types, rank: Node -> nat, max: nat, x: Node, y: Node, A: set<Pair>,
                                           B: set<Pair>, i: nat)
    requires Comparable(T, rank, max, x, y, A) && Comparable(T, rank, max, x, y, B)
    requires LocalTests(T[x], T[y]) && i <= |Comparisons(T[x], T[y])|
    requires CompareFrom(T, rank, max, x, y, A, i) != Unequal
    requires forall p :: p in ConsultedFrom(T, rank, max, x, y, A, i) ==> Assumed(B, p.0, p.1)
    ensures CompareFrom(T, rank, max, x, y, B, i) != Unequal
    decreases Pairs(T) - A, if T[x].shape.WithDataMembers? then 2 * max + 1 else rank(x) + rank(y), 0,
              |Comparisons(T[x], T[y])| - i
  {
    hide Comparisons;
    if i < |Comparisons(T[x], T[y])| {
      ComparisonsAreTargets(T[x], T[y], i);
      var (a, b) := Comparisons(T[x], T[y])[i];
      if a.Some? { EqualsOnConsulted(T, rank, max, a.value, b.value, A, B); }
      FromOnConsulted(T, rank, max, x, y, A, B, i + 1);
    }
  }

  /** What is met in comparing equal types is equal. */
  lemma {:induction false} ConsultedAreBisimilar(T: Types, rank: Node -> nat, max: nat, x: Node, y: Node,
                                                 A: set<Pair>, p: Pair)
    requires Comparable(T, rank, max, x, y, A) && Bisimilar(T, x, y) && p in Consulted(T, rank, max, x, y, A)
    ensures Bisimilar(T, p.0, p.1)
    decreases Pairs(T) - A, rank(x) + rank(y), 2, 0
  {
    hide LocalTests, Comparisons, RelatedIfPresent;
    if x != y && !Assumed(A, x, y) {
      var R :| Bisimulation(T, R, {}) && Related(R, {}, x, y);
      assert Matches(T, R, {}, x, y);
      if p in HalfConsulted(T, rank, max, x, y, A) {
        HalfConsultedAreBisimilar(T, rank, max, x, y, A, p, R);
      } else {
        HalfConsultedAreBisimilar(T, rank, max, y, x, A, p, R);
      }
    }
  }

  lemma {:induction false} HalfConsultedAreBisimilar(T: Types, rank: Node -> nat, max: nat, x: Node, y: Node,
                                                     A: set<Pair>, p: Pair,
                                                     R: set<Pair>)
    requires Comparable(T, rank, max, x, y, A) && !Assumed(A, x, y) && p in HalfConsulted(T, rank, max, x, y, A)
    requires Bisimulation(T, R, {}) && HalfMatches(T, R, {}, x, y, 0)
    ensures Bisimilar(T, p.0, p.1)
    decreases Pairs(T) - A, rank(x) + rank(y), 1, 0
  {
    assert (x, y) in Pairs(T) && (x, y) !in A;
    FromAreBisimilar(T, rank, max, x, y, if T[x].shape.WithDataMembers? then A + {(x, y)} else A, 0, p, R);
  }

  lemma {:induction false} FromAreBisimilar(T: Types, rank: Node -> nat, max: nat, x: Node, y: Node, A: set<Pair>,
                                            i: nat, p: Pair,
                                            R: set<Pair>)
    requires Comparable(T, rank, max, x, y, A) && LocalTests(T[x], T[y]) && i <= |Comparisons(T[x], T[y])|
    requires p in ConsultedFrom(T, rank, max, x, y, A, i)
    requires Bisimulation(T, R, {}) && HalfMatches(T, R, {}, x, y, i)
    ensures Bisimilar(T, p.0, p.1)
    decreases Pairs(T) - A, if T[x].shape.WithDataMembers? then 2 * max + 1 else rank(x) + rank(y), 0,
              |Comparisons(T[x], T[y])| - i
  {
    hide Comparisons, Bisimulation;
    ComparisonsAreTargets(T[x], T[y], i);
    var (a, b) := Comparisons(T[x], T[y])[i];
    if p in ConsultedFrom(T, rank, max, x, y, A, i + 1) {
      FromAreBisimilar(T, rank, max, x, y, A, i + 1, p, R);
    } else {
      assert RelatedIfPresent(R, {}, Comparisons(T[x], T[y])[i]);
      assert Bisimilar(T, a.value, b.value);
      ConsultedAreBisimilar(T, rank, max, a.value, b.value, A, p);
    }
  }

  /** Assumptions that hold can be discharged. */
  lemma Discharge(T: Types, R: set<Pair>, A: set<Pair>, x: Node, y: Node)
    requires Bisimulation(T, R, A) && Related(R, A, x, y)
    requires forall p :: p in A ==> Bisimilar(T, p.0, p.1)
    ensures Bisimilar(T, x, y)
  {
    var S := BisimulationFor(T, A);
    var U := R + S;
    AllMatchMore(T, S, {}, U, {});
    AllMatchMore(T, R, A, U, {});
    assert Bisimulation(T, U, {});
  }

  lemma {:induction false} BisimulationFor(T: Types, A: set<Pair>) returns (S: set<Pair>)
    requires forall p :: p in A ==> Bisimilar(T, p.0, p.1)
    ensures Bisimulation(T, S, {}) && forall p :: p in A ==> Related(S, {}, p.0, p.1)
    decreases A
  {
    hide Matches;
    if A == {} {
      S := {};
    } else {
      var p :| p in A;
      var S1 := BisimulationFor(T, A - {p});
      var S2 :| Bisimulation(T, S2, {}) && Related(S2, {}, p.0, p.1);
      UnionBisimulation(T, S1, S2, {});
      S := S1 + S2;
      forall q | q in A ensures Related(S, {}, q.0, q.1) {
        if q != p { assert q in A - {p}; }
      }
    }
  }

  /** A verdict other than unequal, marked as resting on assumptions or not, is right exactly when all the
      assumptions that it consulted are. */
  lemma VerdictRightIff(T: Types, rank: Node -> nat, max: nat, x: Node, y: Node, A: set<Pair>)
    requires Comparable(T, rank, max, x, y, A) && Equals(T, rank, max, x, y, A) != Unequal
    ensures Bisimilar(T, x, y) <==> forall p :: p in Consulted(T, rank, max, x, y, A) ==> Bisimilar(T, p.0, p.1)
  {
    hide Bisimulation, Related, Ranked;
    var C := Consulted(T, rank, max, x, y, A);
    if Bisimilar(T, x, y) {
      forall p | p in C ensures Bisimilar(T, p.0, p.1) { ConsultedAreBisimilar(T, rank, max, x, y, A, p); }
    }
    if forall p :: p in C ==> Bisimilar(T, p.0, p.1) {
      forall p | p in C ensures p in Pairs(T) && Assumed(C, p.0, p.1) { ConsultedAreAssumed(T, rank, max, x, y, A, p); }
      EqualsOnConsulted(T, rank, max, x, y, A, C);
      var R := EqualsIsSound(T, rank, max, x, y, C);
      Discharge(T, R, C, x, y);
    }
  }

  // ---- Verdicts that lose the mark ----

  /** The kinds whose verdict never says that it rests on an assumption. */
  predicate DropsMark(s: Shape) { !s.WithDataMembers? && !s.Subprogram? }

  /** Two of them that compare other than unequal get the plain verdict, which is cached. */
  lemma MarkIsDropped(T: Types, rank: Node -> nat, max: nat, x: Node, y: Node, A: set<Pair>)
    requires Comparable(T, rank, max, x, y, A) && x != y && !Assumed(A, x, y) && DropsMark(T[x].shape)
    ensures Equals(T, rank, max, x, y, A) != EqualByAssumption
  {
    hide Comparisons;
    if LocalTests(T[x], T[y]) { SameKind(T[x], T[y]); }
  }

  lemma SameKind(x: TypeDie, y: TypeDie)
    requires LocalTests(x, y)
    ensures x.shape.WithDataMembers? <==> y.shape.WithDataMembers?
    ensures x.shape.Subprogram? <==> y.shape.Subprogram?
  {
  }

  /** The two types that x and y refer to are the same or assumed equal, if x refers to one. */
  predicate Settled(A: set<Pair>, c: Compared) {
    c.0.None? || (c.1.Some? && (c.0.value == c.1.value || Assumed(A, c.0.value, c.1.value)))
  }

  lemma SettledIsSome(A: set<Pair>, c: Compared)
    requires Settled(A, c) && c.0.Some?
    ensures c.1.Some? && (c.0.value == c.1.value || Assumed(A, c.0.value, c.1.value))
  {
  }

  lemma SettledEquals(T: Types, rank: Node -> nat, max: nat, x: Node, y: Node, A: set<Pair>)
    requires Comparable(T, rank, max, x, y, A) && (x == y || Assumed(A, x, y))
    ensures Equals(T, rank, max, x, y, A) != Unequal
    ensures forall p :: p in Consulted(T, rank, max, x, y, A) <==> x != y && p == (x, y)
  {
  }

  lemma {:induction false} SettledFrom(T: Types, rank: Node -> nat, max: nat, x: Node, y: Node, A: set<Pair>, i: nat)
    requires Comparable(T, rank, max, x, y, A) && LocalTests(T[x], T[y]) && DropsMark(T[x].shape)
    requires i <= |Comparisons(T[x], T[y])|
    requires forall k :: 0 <= k < |Comparisons(T[x], T[y])| ==> Settled(A, Comparisons(T[x], T[y])[k])
    ensures CompareFrom(T, rank, max, x, y, A, i) != Unequal
    ensures forall k :: i <= k < |Comparisons(T[x], T[y])| ==>
              var c := Comparisons(T[x], T[y])[k];
              c.0.Some? && c.0 != c.1 ==> (c.0.value, c.1.value) in ConsultedFrom(T, rank, max, x, y, A, i)
    ensures forall p :: p in ConsultedFrom(T, rank, max, x, y, A, i) ==>
              exists k :: i <= k < |Comparisons(T[x], T[y])| && Comparisons(T[x], T[y])[k] == (Some(p.0), Some(p.1))
    decreases |Comparisons(T[x], T[y])| - i
  {
    hide Comparisons, LocalTests, Settled, Equals, Consulted;
    if i < |Comparisons(T[x], T[y])| {
      ComparisonsAreTargets(T[x], T[y], i);
      var c := Comparisons(T[x], T[y])[i];
      if c.0.Some? {
        SettledIsSome(A, c);
        SettledEquals(T, rank, max, c.0.value, c.1.value, A);
      }
      SettledFrom(T, rank, max, x, y, A, i + 1);
    }
  }

  /** Types of any kind that loses the mark, if all that they refer to is the same or assumed equal, get the
      plain verdict equal. It is right exactly when all that they refer to is equal. */
  lemma AssumedReferences(T: Types, rank: Node -> nat, max: nat, x: Node, y: Node, A: set<Pair>)
    requires Comparable(T, rank, max, x, y, A) && x != y && !Assumed(A, x, y) && DropsMark(T[x].shape)
    requires QuickTests(T[x], T[y]) && LocalTests(T[x], T[y]) && LocalTests(T[y], T[x])
    requires forall k :: 0 <= k < |Comparisons(T[x], T[y])| ==> Settled(A, Comparisons(T[x], T[y])[k])
    requires forall k :: 0 <= k < |Comparisons(T[y], T[x])| ==> Settled(A, Comparisons(T[y], T[x])[k])
    ensures Equals(T, rank, max, x, y, A) == Equal
    ensures Bisimilar(T, x, y)
            <==> (forall k :: 0 <= k < |Comparisons(T[x], T[y])| ==> BisimilarIfPresent(T, Comparisons(T[x], T[y])[k]))
                 && (forall k :: 0 <= k < |Comparisons(T[y], T[x])| ==>
                     BisimilarIfPresent(T, Comparisons(T[y], T[x])[k]))
  {
    hide Comparisons, LocalTests, Bisimilar, Settled;
    SameKindOf(T[x], T[y]);
    SettledFrom(T, rank, max, x, y, A, 0);
    SettledFrom(T, rank, max, y, x, A, 0);
    MarkIsDropped(T, rank, max, x, y, A);
    VerdictRightIff(T, rank, max, x, y, A);
    HalfRightIff(T, rank, max, x, y, A);
    HalfRightIff(T, rank, max, y, x, A);
  }

  lemma SameKindOf(x: TypeDie, y: TypeDie)
    requires LocalTests(x, y)
    ensures DropsMark(x.shape) <==> DropsMark(y.shape)
  {
  }

  ghost predicate BisimilarIfPresent(T: Types, c: Compared) {
    c.0.Some? && c.1.Some? ==> Bisimilar(T, c.0.value, c.1.value)
  }

  lemma HalfRightIff(T: Types, rank: Node -> nat, max: nat, x: Node, y: Node, A: set<Pair>)
    requires Comparable(T, rank, max, x, y, A) && !Assumed(A, x, y) && LocalTests(T[x], T[y]) && DropsMark(T[x].shape)
    requires forall k :: 0 <= k < |Comparisons(T[x], T[y])| ==> Settled(A, Comparisons(T[x], T[y])[k])
    ensures (forall p :: p in HalfConsulted(T, rank, max, x, y, A) ==> Bisimilar(T, p.0, p.1))
            <==> forall k :: 0 <= k < |Comparisons(T[x], T[y])| ==> BisimilarIfPresent(T, Comparisons(T[x], T[y])[k])
  {
    hide Comparisons, LocalTests, Bisimilar;
    SettledFrom(T, rank, max, x, y, A, 0);
    forall n: Node ensures Bisimilar(T, n, n) { SelfBisimilar(T, n); }
  }

  lemma SelfBisimilar(T: Types, n: Node)
    ensures Bisimilar(T, n, n)
  {
    assert Bisimulation(T, {}, {}) && Related({}, {}, n, n);
  }

  /** Pointers, qualified types and the like whose targets are assumed equal get the plain verdict equal,
      which is right exactly when the targets are equal. */
  lemma AssumedTargets(T: Types, rank: Node -> nat, max: nat, x: Node, y: Node, A: set<Pair>)
    requires Comparable(T, rank, max, x, y, A) && x != y && !Assumed(A, x, y)
    requires T[x].shape.Chain? && T[y].shape.Chain? && QuickTests(T[x], T[y])
    requires T[x].shape.target.Some? && T[y].shape.target.Some?
    requires var a, b := T[x].shape.target.value, T[y].shape.target.value; a != b && Assumed(A, a, b)
    ensures Equals(T, rank, max, x, y, A) == Equal
    ensures Bisimilar(T, x, y) <==> Bisimilar(T, T[x].shape.target.value, T[y].shape.target.value)
  {
    hide Bisimilar;
    var a, b := T[x].shape.target.value, T[y].shape.target.value;
    assert Comparisons(T[x], T[y]) == [(Some(a), Some(b))] && Comparisons(T[y], T[x]) == [(Some(b), Some(a))];
    assert LocalTests(T[x], T[y]) && LocalTests(T[y], T[x]);
    assert T[x].shape.target in Targets(T[x]) && T[y].shape.target in Targets(T[y]);
    assert Comparable(T, rank, max, a, b, A) && Comparable(T, rank, max, b, a, A);
    assert Equals(T, rank, max, a, b, A) == EqualByAssumption == Equals(T, rank, max, b, a, A);
    assert CompareFrom(T, rank, max, x, y, A, 1) == Equal == CompareFrom(T, rank, max, y, x, A, 1);
    assert CompareFrom(T, rank, max, x, y, A, 0) == EqualByAssumption == CompareFrom(T, rank, max, y, x, A, 0);
    assert ConsultedFrom(T, rank, max, x, y, A, 1) == {} == ConsultedFrom(T, rank, max, y, x, A, 1);
    assert ConsultedFrom(T, rank, max, x, y, A, 0) == Consulted(T, rank, max, a, b, A) + {};
    assert ConsultedFrom(T, rank, max, y, x, A, 0) == Consulted(T, rank, max, b, a, A) + {};
    assert forall p :: p in Consulted(T, rank, max, x, y, A) <==> p == (a, b) || p == (b, a);
    VerdictRightIff(T, rank, max, x, y, A);
    SymmetricBisimilar(T, a, b);
  }

  lemma SymmetricBisimilar(T: Types, x: Node, y: Node)
    ensures Bisimilar(T, x, y) <==> Bisimilar(T, y, x)
  {
    hide Bisimulation;
    if Bisimilar(T, x, y) {
      var R :| Bisimulation(T, R, {}) && Related(R, {}, x, y);
      assert Related(R, {}, y, x);
    }
    if Bisimilar(T, y, x) {
      var R :| Bisimulation(T, R, {}) && Related(R, {}, y, x);
      assert Related(R, {}, x, y);
    }
  }

  // ---- Verdicts inside a comparison ----

  /** A comparison of two types under assumptions. */
  datatype Comparison = Comparison(x: Node, y: Node, A: set<Pair>)

  /** d is a comparison that c makes, of the i-th two types that x refers to, or y. */
  ghost predicate Makes(T: Types, c: Comparison, d: Comparison) {
    MakesHalf(T, c.x, c.y, c.A, d) || MakesHalf(T, c.y, c.x, c.A, d)
  }

  ghost predicate MakesHalf(T: Types, x: Node, y: Node, A: set<Pair>, d: Comparison) {
    && x != y && !Assumed(A, x, y) && x in T && y in T && QuickTests(T[x], T[y]) && LocalTests(T[x], T[y])
    && d.A == (if T[x].shape.WithDataMembers? then A + {(x, y)} else A)
    && exists i :: 0 <= i < |Comparisons(T[x], T[y])| && Comparisons(T[x], T[y])[i] == (Some(d.x), Some(d.y))
  }

  ghost predicate IsNesting(T: Types, cs: seq<Comparison>) {
    |cs| > 0 && forall k: nat :: k + 1 < |cs| ==> Makes(T, cs[k], cs[k + 1])
  }

  lemma {:induction false} AllCompared(T: Types, rank: Node -> nat, max: nat, x: Node, y: Node, A: set<Pair>, i: nat,
                                       k: nat)
    requires Comparable(T, rank, max, x, y, A) && LocalTests(T[x], T[y]) && i <= k < |Comparisons(T[x], T[y])|
    requires CompareFrom(T, rank, max, x, y, A, i) != Unequal && Comparisons(T[x], T[y])[k].0.Some?
    ensures var (a, b) := Comparisons(T[x], T[y])[k];
            b.Some? && Comparable(T, rank, max, a.value, b.value, A)
              && Equals(T, rank, max, a.value, b.value, A) != Unequal
    decreases k - i
  {
    hide Comparisons;
    ComparisonsAreTargets(T[x], T[y], i);
    if i < k { AllCompared(T, rank, max, x, y, A, i + 1, k); }
  }

  /** A comparison that ends other than unequal makes only such comparisons. */
  lemma MadeAlike(T: Types, rank: Node -> nat, max: nat, c: Comparison, d: Comparison)
    requires Comparable(T, rank, max, c.x, c.y, c.A) && Equals(T, rank, max, c.x, c.y, c.A) != Unequal && Makes(T, c, d)
    ensures Comparable(T, rank, max, d.x, d.y, d.A) && Equals(T, rank, max, d.x, d.y, d.A) != Unequal
    ensures d.A == c.A || d.A == c.A + {(c.x, c.y)} || d.A == c.A + {(c.y, c.x)}
  {
    hide Comparisons, Ranked;
    if MakesHalf(T, c.x, c.y, c.A, d) {
      MadeHalfAlike(T, rank, max, c.x, c.y, c.A, d);
    } else {
      MadeHalfAlike(T, rank, max, c.y, c.x, c.A, d);
    }
  }

  lemma MadeHalfAlike(T: Types, rank: Node -> nat, max: nat, x: Node, y: Node, A: set<Pair>, d: Comparison)
    requires Comparable(T, rank, max, x, y, A) && MakesHalf(T, x, y, A, d) && MayEqual(T, rank, max, x, y, A) != Unequal
    ensures Comparable(T, rank, max, d.x, d.y, d.A) && Equals(T, rank, max, d.x, d.y, d.A) != Unequal
  {
    hide Comparisons;
    assert (x, y) in Pairs(T);
    var i: nat :| i < |Comparisons(T[x], T[y])| && Comparisons(T[x], T[y])[i] == (Some(d.x), Some(d.y));
    AllCompared(T, rank, max, x, y, d.A, 0, i);
  }

  /** All verdicts given inside a comparison without assumptions are right, cached or not, if it ends other than
      unequal. */
  lemma {:induction false} InsideIsRight(T: Types, rank: Node -> nat, max: nat, cs: seq<Comparison>, k: nat)
    requires IsNesting(T, cs) && k < |cs| && cs[0].A == {}
    requires Comparable(T, rank, max, cs[0].x, cs[0].y, {}) && Equals(T, rank, max, cs[0].x, cs[0].y, {}) != Unequal
    ensures var c := cs[k];
            && Comparable(T, rank, max, c.x, c.y, c.A) && Equals(T, rank, max, c.x, c.y, c.A) != Unequal
            && Bisimilar(T, c.x, c.y) && forall p :: p in c.A ==> Bisimilar(T, p.0, p.1)
  {
    hide Bisimulation, Related, Ranked, Makes;
    var c := cs[k];
    if k > 0 {
      InsideIsRight(T, rank, max, cs, k - 1);
      assert Makes(T, cs[k - 1], cs[k - 1 + 1]);
      MadeAlike(T, rank, max, cs[k - 1], c);
      SymmetricBisimilar(T, cs[k - 1].x, cs[k - 1].y);
    }
    var R := EqualsIsSound(T, rank, max, c.x, c.y, c.A);
    Discharge(T, R, c.A, c.x, c.y);
  }

  // ---- An equal verdict that rests on an assumption ----

  /** Two different structures, each with a pointer to itself as its first member and one of unspecified type
      as its last. Because of that they have no summary codes, nor have pointers to them. */
  const TWO_LISTS: Types := map[
    0 := TypeDie(0x13, Some("list"), None,
                 WithDataMembers(None, [Member(2, Some(0)), Member(4, Some(8)), Member(6, Some(16))])),
    1 := TypeDie(0x13, Some("list"), None,
                 WithDataMembers(None, [Member(3, Some(0)), Member(5, Some(8)), Member(6, Some(16))])),
    2 := TypeDie(0x0f, None, None, Chain(Some(0))),
    3 := TypeDie(0x0f, None, None, Chain(Some(1))),
    4 := TypeDie(0x24, Some("int"), Some(1), Base(5, Some(4), None, None)),
    5 := TypeDie(0x24, Some("float"), Some(2), Base(4, Some(4), None, None)),
    6 := TypeDie(0x3b, Some("decltype(nullptr)"), None, Unspecified)]

  function RankTwoLists(n: Node): nat {
    if n == 2 || n == 3 then 1 else 0
  }

  lemma TwoListsTargets()
    ensures Targets(TWO_LISTS[0]) == [Some(2), Some(4), Some(6)] && Targets(TWO_LISTS[1]) == [Some(3), Some(5), Some(6)]
    ensures Targets(TWO_LISTS[2]) == [Some(0)] && Targets(TWO_LISTS[3]) == [Some(1)]
    ensures Targets(TWO_LISTS[4]) == Targets(TWO_LISTS[5]) == Targets(TWO_LISTS[6]) == []
  {
  }

  lemma TwoListsRanked()
    ensures Ranked(TWO_LISTS, RankTwoLists, 1)
  {
    TwoListsTargets();
    hide Targets;
  }

  lemma BasesUnrelated(R: set<Pair>)
    requires Bisimulation(TWO_LISTS, R, {})
    ensures !Related(R, {}, 4, 5)
  {
    hide Comparisons, LocalTests;
  }

  lemma ListsUnrelated(R: set<Pair>)
    requires Bisimulation(TWO_LISTS, R, {})
    ensures !Related(R, {}, 0, 1)
  {
    BasesUnrelated(R);
    assert Comparisons(TWO_LISTS[0], TWO_LISTS[1])[1] == (Some(4), Some(5));
    assert Comparisons(TWO_LISTS[1], TWO_LISTS[0])[1] == (Some(5), Some(4));
    hide Comparisons, LocalTests, QuickTests;
  }

  /** While the structures are compared, the pointers to them are, under the assumption that the structures are
      equal. They get the plain verdict equal, which is taken as not resting on the assumption and cached. Then
      the structures turn out unequal, and so are the pointers. */
  lemma EqualVerdictRestsOnAssumption()
    ensures Makes(TWO_LISTS, Comparison(0, 1, {}), Comparison(2, 3, {} + {(0, 1)}))
    ensures Comparable(TWO_LISTS, RankTwoLists, 1, 2, 3, {(0, 1)})
    ensures Equals(TWO_LISTS, RankTwoLists, 1, 2, 3, {(0, 1)}) == Equal
    ensures Comparable(TWO_LISTS, RankTwoLists, 1, 0, 1, {}) && Equals(TWO_LISTS, RankTwoLists, 1, 0, 1, {}) == Unequal
    ensures !Bisimilar(TWO_LISTS, 2, 3)
  {
    hide Equals, Bisimilar, Makes, QuickTests, Ranked;
    PointersCompared();
    TwoListsRanked();
    assert (0, 1) in Pairs(TWO_LISTS);
    AssumedTargets(TWO_LISTS, RankTwoLists, 1, 2, 3, {(0, 1)});
    ListsNotEqual();
    EqualsIffBisimilar(TWO_LISTS, RankTwoLists, 1, 0, 1);
  }

  lemma PointersCompared()
    ensures Makes(TWO_LISTS, Comparison(0, 1, {}), Comparison(2, 3, {} + {(0, 1)}))
    ensures QuickTests(TWO_LISTS[2], TWO_LISTS[3]) && QuickTests(TWO_LISTS[3], TWO_LISTS[2])
  {
    assert Comparisons(TWO_LISTS[0], TWO_LISTS[1])[0] == (Some(2), Some(3));
  }

  lemma ListsNotEqual()
    ensures !Bisimilar(TWO_LISTS, 0, 1)
  {
    hide Bisimulation;
    forall R | Bisimulation(TWO_LISTS, R, {}) ensures !Related(R, {}, 0, 1) {
      ListsUnrelated(R);
    }
  }

  /** One of the structures (0), its pointer (1), its value (2) and its unspecified type (3), as summaries see
      them. */
  function OneList(value: string, tokens: seq<nat>): S.Graph {
    map[0 := S.WithMembers("list", false, None,
                           [S.Member(false, Some(0), 1), S.Member(false, Some(8), 2), S.Member(false, Some(16), 3)]),
        1 := S.AddressHolding(0x0f, 8, Some(0)),
        2 := S.Base(value, tokens),
        3 := S.Unspecified]
  }

  lemma ListTargets(value: string, tokens: seq<nat>)
    ensures var g := OneList(value, tokens);
            S.Targets(g[0]) == [1, 2, 3] && S.Targets(g[1]) == [0] && S.Targets(g[2]) == [] && S.Targets(g[3]) == []
  {
  }

  lemma ListHasNames(value: string, tokens: seq<nat>)
    ensures S.HasNames(OneList(value, tokens))
  {
    ListTargets(value, tokens);
    hide S.Targets;
    Acyclic.DropsShowNoCycle(S.NameGraph(OneList(value, tokens)), (n: nat) => if n == 1 then 1 else 0);
  }

  lemma ListParts(value: string, tokens: seq<nat>)
    ensures var g := OneList(value, tokens);
            S.HasNames(g) && S.HoldsAddress(g, Some(1)) && !S.HoldsAddress(g, Some(3))
            && 1 !in S.Parts(g, 0) && 3 in S.Parts(g, 0)
            && S.Parts(g, 1) == [0] && S.Parts(g, 2) == [] && S.Parts(g, 3) == []
  {
    ListTargets(value, tokens);
    ListHasNames(value, tokens);
    hide S.HasNames;
    var g := OneList(value, tokens);
    var ms := g[0].members;
    assert S.Counts(ms[2]) && ms[2].typ == 3;
    assert 3 in S.CountedTypes(ms);
  }

  lemma ListTerminates(value: string, tokens: seq<nat>)
    ensures S.Terminates(OneList(value, tokens))
  {
    ListTargets(value, tokens);
    ListParts(value, tokens);
    hide S.HasNames, S.Parts, S.HoldsAddress, S.Targets;
    Acyclic.DropsShowNoCycle(S.PartGraph(OneList(value, tokens)), 
                             (n: nat) => if n == 1 then 2 else if n == 0 then 1 else 0);
  }

  /** Neither the structure nor the pointer has a summary code. */
  lemma ListHasNoCode(h: S.Hash, value: string, tokens: seq<nat>)
    ensures var g := OneList(value, tokens);
            S.Terminates(g) && S.SummaryOf(h, g, 0).None? && S.SummaryOf(h, g, 1).None?
  {
    hide S.SummaryOf, S.Parts, S.Terminates, S.HasNames;
    var g := OneList(value, tokens);
    ListTerminates(value, tokens);
    ListParts(value, tokens);
    L.AbsentStep(h, g, 3);
    assert L.Absent(h, g, 3);
    L.AbsentStep(h, g, 0);
    assert L.Absent(h, g, 0);
    L.AbsentStep(h, g, 1);
  }
}
