/** Equality of types as a relation: it is reflexive and symmetric, and whether it is transitive depends on names. */
module EqualityLaws {
  import opened Wrappers
  import A = Acyclic
  import opened TypeEquality

  /** Two types with different names are both equal to a third. */
  ghost predicate NameClash(T: Types, a: Node, b: Node, c: Node) {
    && a in T && b in T && c in T && T[a].name.Some? && T[c].name.Some? && T[a].name != T[c].name
    && Bisimilar(T, a, b) && Bisimilar(T, b, c)
  }

  ghost predicate NoNameClash(T: Types) {
    forall a, b, c :: !NameClash(T, a, b, c)
  }

  ghost predicate Transitive(T: Types) {
    forall a, b, c :: a in T && b in T && c in T && Bisimilar(T, a, b) && Bisimilar(T, b, c) ==> Bisimilar(T, a, c)
  }

  /** Of the kinds whose own tests ignore names, no type without a name has the same tag as two types with
      different names. */
  ghost predicate UniformNames(T: Types) {
    forall a, b, c ::
      a in T && b in T && c in T && T[a].tag == T[b].tag && T[b].tag == T[c].tag
      && (T[b].shape.Chain? || T[b].shape.Unspecified?) && T[b].name.None? && T[a].name.Some? && T[c].name.Some? ==>
        T[a].name == T[c].name
  }

  lemma LocalTestsCompose(x: TypeDie, y: TypeDie, z: TypeDie)
    requires LocalTests(x, y) && LocalTests(y, z)
    ensures LocalTests(x, z)
    ensures |Comparisons(x, y)| == |Comparisons(y, z)| == |Comparisons(x, z)|
  {
  }

  /** The comparisons of x on z go through those of y, whichever way round they are made. */
  lemma ComparisonsCompose(x: TypeDie, y: TypeDie, z: TypeDie, i: nat)
    requires LocalTests(x, y) && LocalTests(y, z) && LocalTests(x, z)
    requires i < |Comparisons(x, y)| == |Comparisons(y, z)| == |Comparisons(x, z)|
    ensures var (c, d, e) := (Comparisons(x, y)[i], Comparisons(y, z)[i], Comparisons(x, z)[i]);
            || (c.1 == d.0 && e == (c.0, d.1))
            || (c.0 == d.1 && e == (d.0, c.1) && c.0.Some? && c.1.Some? && d.0.Some? && d.1.Some?)
  {
  }

  /** What C relates: distinct types joined by two steps of U. */
  ghost function TwoSteps(T: Types, U: set<Pair>): set<Pair> {
    set a, c | a in T && c in T && a != c
               && (exists b :: b in T && Related(U, {}, a, b) && Related(U, {}, b, c)) :: (a, c)
  }

  lemma InTwoSteps(T: Types, U: set<Pair>, a: Node, b: Node, c: Node)
    requires a in T && b in T && c in T && Related(U, {}, a, b) && Related(U, {}, b, c)
    ensures Related(TwoSteps(T, U), {}, a, c)
  {
    if a != c { assert (a, c) in TwoSteps(T, U); }
  }

  lemma RelatedMatch(T: Types, U: set<Pair>, a: Node, b: Node)
    requires Bisimulation(T, U, {}) && Related(U, {}, a, b) && a != b
    ensures Matches(T, U, {}, a, b)
  {
    hide LocalTests, Comparisons, RelatedIfPresent;
    assert Matches(T, U, {}, a, b) || Matches(T, U, {}, b, a);
  }

  lemma ComposedHalf(T: Types, U: set<Pair>, a: Node, b: Node, c: Node)
    requires Closed(T) && Matches(T, U, {}, a, b) && Matches(T, U, {}, b, c)
    ensures HalfMatches(T, TwoSteps(T, U), {}, a, c, 0)
  {
    LocalTestsCompose(T[a], T[b], T[c]);
    forall i | 0 <= i < |Comparisons(T[a], T[c])|
      ensures RelatedIfPresent(TwoSteps(T, U), {}, Comparisons(T[a], T[c])[i]) {
      ComposedAt(T, U, a, b, c, i);
    }
    hide LocalTests, Comparisons, RelatedIfPresent;
  }

  lemma ComposedAt(T: Types, U: set<Pair>, a: Node, b: Node, c: Node, i: nat)
    requires Closed(T) && Matches(T, U, {}, a, b) && Matches(T, U, {}, b, c) && LocalTests(T[a], T[c])
    requires i < |Comparisons(T[a], T[b])| == |Comparisons(T[b], T[c])| == |Comparisons(T[a], T[c])|
    ensures RelatedIfPresent(TwoSteps(T, U), {}, Comparisons(T[a], T[c])[i])
  {
    ComparisonsCompose(T[a], T[b], T[c], i);
    ComparisonsInTypes(T, a, b, i);
    ComparisonsInTypes(T, b, c, i);
    hide LocalTests, Comparisons, TwoSteps, QuickTests, Related;
    var (p, q) := (Comparisons(T[a], T[b])[i], Comparisons(T[b], T[c])[i]);
    assert RelatedIfPresent(U, {}, p) && RelatedIfPresent(U, {}, q);
    if p.1 == q.0 {
      if p.0.Some? { InTwoSteps(T, U, p.0.value, p.1.value, q.1.value); }
    }
    if p.0 == q.1 {
      if q.0.Some? && p.0.Some? { InTwoSteps(T, U, q.0.value, q.1.value, p.1.value); }
    }
  }

  lemma ComparisonsInTypes(T: Types, x: Node, y: Node, i: nat)
    requires Closed(T) && x in T && y in T && LocalTests(T[x], T[y]) && i < |Comparisons(T[x], T[y])|
    ensures var (a, b) := Comparisons(T[x], T[y])[i];
            (a.Some? ==> a.value in T) && (b.Some? ==> b.value in T)
  {
    ComparisonsAreTargets(T[x], T[y], i);
  }

  lemma QuickTestsCompose(T: Types, U: set<Pair>, a: Node, b: Node, c: Node)
    requires NoNameClash(T) && Bisimulation(T, U, {}) && Related(U, {}, a, b) && Related(U, {}, b, c)
    requires a in T && b in T && c in T && QuickTests(T[a], T[b]) && QuickTests(T[b], T[c])
    ensures QuickTests(T[a], T[c])
  {
    hide Bisimulation, Related;
    assert Bisimilar(T, a, b) && Bisimilar(T, b, c);
    assert !NameClash(T, a, b, c);
  }

  lemma TwoStepsBisimulation(T: Types, U: set<Pair>)
    requires Closed(T) && NoNameClash(T) && Bisimulation(T, U, {})
    ensures Bisimulation(T, TwoSteps(T, U), {})
  {
    hide LocalTests, Comparisons, RelatedIfPresent, QuickTests, Closed, NoNameClash;
    var C := TwoSteps(T, U);
    forall p | p in C ensures Matches(T, C, {}, p.0, p.1) {
      var a, c := p.0, p.1;
      var b :| b in T && Related(U, {}, a, b) && Related(U, {}, b, c);
      if a == b || b == c {
        RelatedMatch(T, U, a, c);
        forall q | q in U ensures q.0 == q.1 || q in C {
          assert Matches(T, U, {}, q.0, q.1) && q == (q.0, q.1);
          assert Related(U, {}, q.0, q.1) && Related(U, {}, q.1, q.1);
        }
        MatchesMore(T, U, {}, C, {}, a, c);
      } else {
        RelatedMatch(T, U, a, b);
        RelatedMatch(T, U, b, c);
        RelatedMatch(T, U, b, a);
        RelatedMatch(T, U, c, b);
        ComposedHalf(T, U, a, b, c);
        ComposedHalf(T, U, c, b, a);
        QuickTestsCompose(T, U, a, b, c);
      }
    }
  }

  lemma BisimilarInTypes(T: Types, x: Node, y: Node)
    requires Bisimilar(T, x, y) && x in T
    ensures y in T
  {
    hide LocalTests, Comparisons, RelatedIfPresent, QuickTests;
    var R :| Bisimulation(T, R, {}) && Related(R, {}, x, y);
    if x != y { RelatedMatch(T, R, x, y); }
  }

  /** Equality of types is reflexive and symmetric, and respects summary codes. */
  lemma EqualityIsSymmetric(T: Types, x: Node, y: Node)
    requires x in T
    ensures Bisimilar(T, x, x)
    ensures Bisimilar(T, x, y) ==> Bisimilar(T, y, x) && y in T && T[x].code == T[y].code
  {
    hide LocalTests, Comparisons, RelatedIfPresent;
    assert Bisimulation(T, {}, {}) && Related({}, {}, x, x);
    if Bisimilar(T, x, y) {
      BisimilarInTypes(T, x, y);
      var R :| Bisimulation(T, R, {}) && Related(R, {}, x, y);
      assert Related(R, {}, y, x);
      if x != y { RelatedMatch(T, R, x, y); }
    }
  }

  lemma NoClashComposes(T: Types, x: Node, y: Node, z: Node)
    requires Closed(T) && NoNameClash(T) && x in T && Bisimilar(T, x, y) && Bisimilar(T, y, z)
    ensures Bisimilar(T, x, z)
  {
    hide LocalTests, Comparisons, RelatedIfPresent, Closed, NoNameClash;
    BisimilarInTypes(T, x, y);
    BisimilarInTypes(T, y, z);
    var R :| Bisimulation(T, R, {}) && Related(R, {}, x, y);
    var S :| Bisimulation(T, S, {}) && Related(S, {}, y, z);
    UnionBisimulation(T, R, S, {});
    TwoStepsBisimulation(T, R + S);
    InTwoSteps(T, R + S, x, y, z);
  }

  lemma NamesOfEqual(T: Types, a: Node, c: Node)
    requires a in T && Bisimilar(T, a, c)
    ensures c in T && (T[a].name.Some? && T[c].name.Some? ==> T[a].name == T[c].name) && T[a].tag == T[c].tag
  {
    hide LocalTests, Comparisons, RelatedIfPresent;
    BisimilarInTypes(T, a, c);
    var R :| Bisimulation(T, R, {}) && Related(R, {}, a, c);
    if a != c { RelatedMatch(T, R, a, c); }
  }

  /** It is transitive exactly when no two types with different names are both equal to a third. */
  lemma TransitiveIff(T: Types)
    requires Closed(T)
    ensures Transitive(T) <==> NoNameClash(T)
  {
    hide Bisimilar, Closed;
    if Transitive(T) {
      forall a, b, c ensures !NameClash(T, a, b, c) {
        if NameClash(T, a, b, c) { NamesOfEqual(T, a, c); }
      }
    }
    if NoNameClash(T) {
      forall a, b, c | a in T && b in T && c in T && Bisimilar(T, a, b) && Bisimilar(T, b, c)
        ensures Bisimilar(T, a, c) {
        NoClashComposes(T, a, b, c);
      }
    }
  }

  lemma UnnamedKind(T: Types, a: Node, b: Node)
    requires a in T && Bisimilar(T, a, b) && a != b && T[a].name.Some? && b in T && T[b].name.None?
    ensures T[b].shape.Chain? || T[b].shape.Unspecified?
  {
    hide Comparisons, RelatedIfPresent;
    var R :| Bisimulation(T, R, {}) && Related(R, {}, a, b);
    RelatedMatch(T, R, a, b);
  }

  /** Uniform names are enough: only types without a name can be equal to two with different names. */
  lemma UniformNamesDoNotClash(T: Types)
    requires UniformNames(T)
    ensures NoNameClash(T)
  {
    hide Bisimilar;
    forall a, b, c ensures !NameClash(T, a, b, c) {
      if NameClash(T, a, b, c) {
        NamesOfEqual(T, a, b);
        NamesOfEqual(T, b, c);
        UnnamedKind(T, a, b);
        assert false;
      }
    }
  }

  /** Where names are uniform, equality of types is an equivalence. */
  lemma EqualityIsEquivalence(T: Types, x: Node, y: Node, z: Node)
    requires Closed(T) && UniformNames(T) && x in T
    ensures Bisimilar(T, x, x)
    ensures Bisimilar(T, x, y) ==> Bisimilar(T, y, x) && y in T && T[x].code == T[y].code
    ensures Bisimilar(T, x, y) && Bisimilar(T, y, z) ==> Bisimilar(T, x, z)
  {
    hide Bisimilar, Closed, UniformNames;
    EqualityIsSymmetric(T, x, y);
    UniformNamesDoNotClash(T);
    if Bisimilar(T, x, y) && Bisimilar(T, y, z) { NoClashComposes(T, x, y, z); }
  }

  /** A pointer type without a name, and two with different names, to void. */
  const NAMED_AND_UNNAMED: Types := map[
    0 := TypeDie(0x0f, Some("a"), None, Chain(None)),
    1 := TypeDie(0x0f, None, None, Chain(None)),
    2 := TypeDie(0x0f, Some("b"), None, Chain(None))]

  /** Where names are not uniform, equality need not be transitive: a missing name equals any. */
  lemma NamesBreakTransitivity()
    ensures Bisimilar(NAMED_AND_UNNAMED, 0, 1) && Bisimilar(NAMED_AND_UNNAMED, 1, 2)
    ensures !Bisimilar(NAMED_AND_UNNAMED, 0, 2)
  {
    assert Bisimulation(NAMED_AND_UNNAMED, {(0, 1)}, {});
    assert Bisimulation(NAMED_AND_UNNAMED, {(1, 2)}, {});
  }

  // ---- Cycles ----

  function Present(ts: seq<Option<Node>>): (r: seq<Node>)
    ensures forall v :: v in r <==> Some(v) in ts
  {
    if ts == [] then [] else (if ts[0].Some? then [ts[0].value] else []) + Present(ts[1..])
  }

  function References(T: Types): A.Succs<Node> { map n | n in T :: Present(Targets(T[n])) }

  /** The references, without those of types with data members. */
  function OtherReferences(T: Types): A.Succs<Node> {
    map n | n in T :: if T[n].shape.WithDataMembers? then [] else Present(Targets(T[n]))
  }

  /** Every cycle of references passes through a type with data members. */
  ghost predicate CyclesHaveMembers(T: Types) {
    forall p: seq<Node> :: A.IsCycle(References(T), p) ==>
        exists i :: 0 <= i < |p| && p[i] in T && T[p[i]].shape.WithDataMembers?
  }

  lemma OtherCycles(T: Types)
    requires CyclesHaveMembers(T)
    ensures A.NoCycle(OtherReferences(T))
  {
    forall p: seq<Node> | A.IsCycle(OtherReferences(T), p) ensures false {
      forall i: nat | i + 1 < |p| ensures A.HasEdge(References(T), p[i], p[i + 1]) {
        assert A.HasEdge(OtherReferences(T), p[i], p[i + 1]);
      }
      assert A.IsCycle(References(T), p);
      forall i: nat | i < |p| && p[i] in T ensures !T[p[i]].shape.WithDataMembers? {
        OtherSource(T, p, if i < |p| - 1 then i else 0);
      }
    }
  }

  lemma OtherSource(T: Types, p: seq<Node>, i: nat)
    requires A.IsWalk(OtherReferences(T), p) && i + 1 < |p|
    ensures p[i] in T && !T[p[i]].shape.WithDataMembers?
  {
    assert A.HasEdge(OtherReferences(T), p[i], p[i + 1]);
  }

  lemma RankBound(s: A.Succs<Node>, n: Node)
    ensures A.Rank(s, n) <= |s.Keys|
  {
  }

  /** The longest way along other references is a rank, so that comparisons end. */
  lemma CyclesGiveRank(T: Types)
    requires Closed(T) && CyclesHaveMembers(T)
    ensures Ranked(T, (n: Node) => A.Rank(OtherReferences(T), n), |OtherReferences(T).Keys|)
  {
    var s := OtherReferences(T);
    hide A.Rank;
    OtherCycles(T);
    forall n | n in T ensures A.Rank(s, n) <= |s.Keys| { RankBound(s, n); }
    forall n, t | n in T && !T[n].shape.WithDataMembers? && t in Targets(T[n]) && t.Some?
      ensures A.Rank(s, t.value) < A.Rank(s, n)
    {
      assert t.value in s[n];
      A.RankDrops(s, n, t.value);
    }
  }

  lemma {:induction false} RankGoesDown(T: Types, rank: Node -> nat, max: nat, p: seq<Node>, k: nat)
    requires Ranked(T, rank, max) && A.IsWalk(References(T), p) && k < |p|
    requires forall i :: 0 <= i < |p| ==> p[i] in T && !T[p[i]].shape.WithDataMembers?
    ensures rank(p[k]) <= rank(p[0]) && (k > 0 ==> rank(p[k]) < rank(p[0]))
  {
    if k > 0 {
      RankGoesDown(T, rank, max, p, k - 1);
      assert A.HasEdge(References(T), p[k - 1], p[k - 1 + 1]);
    }
  }

  /** There is a rank exactly when every cycle passes through a type with data members. */
  lemma RanksExistIff(T: Types)
    requires Closed(T)
    ensures (exists rank: Node -> nat, max :: Ranked(T, rank, max)) <==> CyclesHaveMembers(T)
  {
    if CyclesHaveMembers(T) { CyclesGiveRank(T); }
    if rank: Node -> nat, max :| Ranked(T, rank, max) {
      forall p: seq<Node> | A.IsCycle(References(T), p)
        ensures exists i :: 0 <= i < |p| && p[i] in T && T[p[i]].shape.WithDataMembers?
      {
        forall i: nat | i < |p| ensures p[i] in T { A.WalkStays(References(T), p, i); }
        if forall i :: 0 <= i < |p| ==> !T[p[i]].shape.WithDataMembers? {
          RankGoesDown(T, rank, max, p, |p| - 1);
        }
      }
    }
  }
}
