/** Structural equality of types, without its result cache. Cycles are broken by assuming two types
    with data members equal while their members are compared. */
module TypeEquality {
  import opened Wrappers

  type Node = nat

  datatype Verdict = Unequal | Equal | EqualByAssumption

  /** A data member: its type, after bitfield handling, and its location. */
  datatype Member = Member(memberType: Node, location: Option<int>)

  /** The attributes and children that the comparison looks at, by kind of type DIE. */
  datatype Shape =
    | Base(encoding: int, byteSize: Option<int>, bitSize: Option<int>, bitOffset: Option<int>)
    | Chain(target: Option<Node>)
    | Typedef(target: Option<Node>)
    | PtrToMember(target: Option<Node>)
    | ArrayOf(subranges: seq<Option<Node>>, element: Node)
    | Enumeration(target: Option<Node>, enumerators: seq<(string, Option<int>)>)
    | Subrange(target: Option<Node>, lower: Option<int>, upper: Option<int>, count: Option<int>)
    | Subprogram(target: Option<Node>, variadic: bool, params: seq<Node>)
    | StringOf(dynamicLength: Option<int>, byteSize: Option<int>)
    | Unspecified
    | WithDataMembers(associatedName: Option<string>, members: seq<Member>)

  /** A type DIE; code is its summary code, if it has one. */
  datatype TypeDie = TypeDie(tag: int, name: Option<string>, code: Option<nat>, shape: Shape)

  type Types = map<Node, TypeDie>
  type Pair = (Node, Node)
  type Compared = (Option<Node>, Option<Node>)

  // ---- The tests that do not compare other types ----

  /** What equal checks before it asks the two types: tags, names if both have one, summary codes. */
  predicate QuickTests(x: TypeDie, y: TypeDie) {
    && x.tag == y.tag
    && (x.name.Some? && y.name.Some? ==> x.name == y.name)
    && x.code == y.code
  }

  /** The tests of x's may_equal on y, apart from its comparisons of other types. */
  predicate LocalTests(x: TypeDie, y: TypeDie) {
    && x.tag == y.tag
    && match (x.shape, y.shape)
       case (Base(e, s, b, o), Base(e', s', b', o')) => x.name == y.name && e == e' && s == s' && b == b' && o == o'
       case (Chain(t), Chain(t')) => t.Some? == t'.Some?
       case (Typedef(t), Typedef(t')) => x.name.Some? && x.name == y.name && t.Some? == t'.Some?
       case (PtrToMember(_), PtrToMember(_)) => false   // get_concrete_type never yields a pointer to member
       case (ArrayOf(r, _), ArrayOf(r', _)) =>
         x.name == y.name && |r| == |r'| && forall i :: 0 <= i < |r| && r[i].Some? ==> r'[i].Some?
       case (Enumeration(t, e), Enumeration(t', e')) => x.name == y.name && t.Some? == t'.Some? && e == e'
       case (Subrange(t, l, u, c), Subrange(t', l', u', c')) =>
         x.name == y.name && t.Some? == t'.Some? && l == l' && u == u' && c == c'
       case (Subprogram(t, v, p), Subprogram(t', v', p')) =>
         x.name == y.name && t.Some? == t'.Some? && v == v' && |p| == |p'|
       case (StringOf(d, s), StringOf(d', s')) => x.name == y.name && d == d' && (d.None? ==> s == s')
       case (Unspecified, Unspecified) => true
       case (WithDataMembers(a, m), WithDataMembers(a', m')) =>
         && x.name == y.name && (x.name.None? ==> a == a')
         && |m| == |m'| && forall i :: 0 <= i < |m| ==> m[i].location == m'[i].location
       case _ => false
  }

  /** The comparisons of other types that x's may_equal makes on y, in order. */
  function Comparisons(x: TypeDie, y: TypeDie): seq<Compared>
    requires LocalTests(x, y)
  {
    match (x.shape, y.shape)
    case (Chain(t), Chain(t')) => [(t, t')]
    case (Typedef(t), Typedef(t')) => [(t, t')]
    case (ArrayOf(r, e), ArrayOf(r', e')) => seq(|r|, i requires 0 <= i < |r| => (r[i], r'[i])) + [(Some(e), Some(e'))]
    case (Enumeration(t, _), Enumeration(t', _)) => [(t, t')]
    case (Subrange(t, _, _, _), Subrange(t', _, _, _)) => [(t, t')]
    case (Subprogram(t, _, p), Subprogram(t', _, p')) =>
      [(t, t')] + seq(|p|, i requires 0 <= i < |p| => (Some(p'[i]), Some(p[i])))
    case (WithDataMembers(_, m), WithDataMembers(_, m')) =>
      seq(|m|, i requires 0 <= i < |m| => (Some(m[i].memberType), Some(m'[i].memberType)))
    case _ => []
  }

  /** The types x refers to. */
  function Targets(x: TypeDie): seq<Option<Node>> {
    match x.shape
    case Chain(t) => [t]
    case Typedef(t) => [t]
    case PtrToMember(t) => [t]
    case ArrayOf(r, e) => r + [Some(e)]
    case Enumeration(t, _) => [t]
    case Subrange(t, _, _, _) => [t]
    case Subprogram(t, _, p) => [t] + seq(|p|, i requires 0 <= i < |p| => Some(p[i]))
    case WithDataMembers(_, m) => seq(|m|, i requires 0 <= i < |m| => Some(m[i].memberType))
    case _ => []
  }

  ghost predicate Closed(T: Types) {
    forall n, t :: n in T && t in Targets(T[n]) && t.Some? ==> t.value in T
  }

  /** Every cycle of references passes through a type with data members: along the references of any
      other type, the rank goes down. */
  ghost predicate Ranked(T: Types, rank: Node -> nat, max: nat) {
    && Closed(T)
    && (forall n :: n in T ==> rank(n) <= max)
    && (forall n, t :: n in T && !T[n].shape.WithDataMembers? && t in Targets(T[n]) && t.Some? ==>
          rank(t.value) < rank(n))
  }

  lemma ComparisonsAreTargets(x: TypeDie, y: TypeDie, i: nat)
    requires LocalTests(x, y) && i < |Comparisons(x, y)|
    ensures var (a, b) := Comparisons(x, y)[i];
            || (a in Targets(x) && b in Targets(y))
            || (a in Targets(y) && b in Targets(x))
    ensures x.shape.WithDataMembers? <==> y.shape.WithDataMembers?
  {
    var (a, b) := Comparisons(x, y)[i];
    if x.shape.Subprogram? && i > 0 {
      assert a == Targets(y)[i] && b == Targets(x)[i];
    } else {
      assert a == Targets(x)[i] && b == Targets(y)[i];
    }
  }

  // ---- The comparison ----

  ghost function Pairs(T: Types): set<Pair> {
    set x, y | x in T && y in T :: (x, y)
  }

  predicate Assumed(A: set<Pair>, x: Node, y: Node) {
    (x, y) in A || (y, x) in A
  }

  /** The two types can be compared under the assumptions A; rank serves termination only. */
  ghost predicate Comparable(T: Types, rank: Node -> nat, max: nat, x: Node, y: Node, A: set<Pair>) {
    Ranked(T, rank, max) && x in T && y in T && A <= Pairs(T)
  }

  function Equals(T: Types, ghost rank: Node -> nat, ghost max: nat, x: Node, y: Node, A: set<Pair>): (v: Verdict)
    requires Comparable(T, rank, max, x, y, A)
    decreases Pairs(T) - A, rank(x) + rank(y), 2, 0
  {
    if x == y then Equal
    else if Assumed(A, x, y) then EqualByAssumption
    else if !QuickTests(T[x], T[y]) then Unequal
    else
      var r1 := MayEqual(T, rank, max, x, y, A);
      if r1 == Unequal then Unequal
      else
        var r2 := MayEqual(T, rank, max, y, x, A);
        if r2 == Unequal then Unequal
        else if r1 == EqualByAssumption || r2 == EqualByAssumption then EqualByAssumption
        else Equal
  }

  /** For two types with data members, their own equality is assumed while the members are compared.
      An assumption used inside shows in the verdict on a subprogram type; in that on a type with data
      members unless the only assumption in force is the one just made; and in that on no other type. */
  function MayEqual(T: Types, ghost rank: Node -> nat, ghost max: nat, x: Node, y: Node, A: set<Pair>): (v: Verdict)
    requires Comparable(T, rank, max, x, y, A) && !Assumed(A, x, y)
    decreases Pairs(T) - A, rank(x) + rank(y), 1, 0
  {
    if !LocalTests(T[x], T[y]) then Unequal
    else
      assert (x, y) in Pairs(T) && (x, y) !in A;
      var v := CompareFrom(T, rank, max, x, y, if T[x].shape.WithDataMembers? then A + {(x, y)} else A, 0);
      if v == Unequal then Unequal
      else match T[x].shape
        case WithDataMembers(_, _) => if A == {} then Equal else v
        case Subprogram(_, _, _) => v
        case _ => Equal
  }

  /** The comparisons from the i-th on. */
  function CompareFrom(T: Types, ghost rank: Node -> nat, ghost max: nat, x: Node, y: Node, A: set<Pair>,
                       i: nat): (v: Verdict)
    requires Comparable(T, rank, max, x, y, A) && LocalTests(T[x], T[y]) && i <= |Comparisons(T[x], T[y])|
    decreases Pairs(T) - A, if T[x].shape.WithDataMembers? then 2 * max + 1 else rank(x) + rank(y), 0,
              |Comparisons(T[x], T[y])| - i
  {
    if i == |Comparisons(T[x], T[y])| then Equal
    else
      ComparisonsAreTargets(T[x], T[y], i);
      var (a, b) := Comparisons(T[x], T[y])[i];
      if a.None? then CompareFrom(T, rank, max, x, y, A, i + 1)
      else if b.None? then Unequal
      else
        var v := Equals(T, rank, max, a.value, b.value, A);
        if v == Unequal then Unequal
        else
          var w := CompareFrom(T, rank, max, x, y, A, i + 1);
          if w == Equal then v else w
  }

  // ---- Bisimulation ----

  /** x and y are the same type, or are related by R or by the assumptions, in either order. */
  predicate Related(R: set<Pair>, A: set<Pair>, x: Node, y: Node) {
    x == y || Assumed(R, x, y) || Assumed(A, x, y)
  }

  predicate RelatedIfPresent(R: set<Pair>, A: set<Pair>, c: Compared) {
    c.0.None? || (c.1.Some? && Related(R, A, c.0.value, c.1.value))
  }

  /** x and y pass every local test, both ways, and the types they refer to are related. */
  predicate Matches(T: Types, R: set<Pair>, A: set<Pair>, x: Node, y: Node) {
    && x in T && y in T && QuickTests(T[x], T[y])
    && LocalTests(T[x], T[y]) && LocalTests(T[y], T[x])
    && (forall i :: 0 <= i < |Comparisons(T[x], T[y])| ==> RelatedIfPresent(R, A, Comparisons(T[x], T[y])[i]))
    && (forall i :: 0 <= i < |Comparisons(T[y], T[x])| ==> RelatedIfPresent(R, A, Comparisons(T[y], T[x])[i]))
  }

  /** A bisimulation for the local tests, up to the assumptions A. */
  predicate Bisimulation(T: Types, R: set<Pair>, A: set<Pair>) {
    forall p :: p in R ==> Matches(T, R, A, p.0, p.1)
  }

  /** Two types are equal if they are the same or some bisimulation relates them. */
  ghost predicate Bisimilar(T: Types, x: Node, y: Node) {
    exists R :: Bisimulation(T, R, {}) && Related(R, {}, x, y)
  }

  // ---- Soundness ----

  /** Whatever distinct types R or A relates, S or B relates, in one order or the other. */
  ghost predicate Covers(S: set<Pair>, B: set<Pair>, R: set<Pair>, A: set<Pair>) {
    forall p :: p in R || p in A ==> p.0 == p.1 || Assumed(S, p.0, p.1) || Assumed(B, p.0, p.1)
  }

  lemma RelatedMore(R: set<Pair>, A: set<Pair>, S: set<Pair>, B: set<Pair>, c: Compared)
    requires RelatedIfPresent(R, A, c) && Covers(S, B, R, A)
    ensures RelatedIfPresent(S, B, c)
  {
  }

  lemma MatchesMore(T: Types, R: set<Pair>, A: set<Pair>, S: set<Pair>, B: set<Pair>, x: Node, y: Node)
    requires Matches(T, R, A, x, y) && Covers(S, B, R, A)
    ensures Matches(T, S, B, x, y)
  {
    hide QuickTests, LocalTests, Comparisons, RelatedIfPresent, Covers;
    forall i | 0 <= i < |Comparisons(T[x], T[y])| ensures RelatedIfPresent(S, B, Comparisons(T[x], T[y])[i]) {
      RelatedMore(R, A, S, B, Comparisons(T[x], T[y])[i]);
    }
    forall i | 0 <= i < |Comparisons(T[y], T[x])| ensures RelatedIfPresent(S, B, Comparisons(T[y], T[x])[i]) {
      RelatedMore(R, A, S, B, Comparisons(T[y], T[x])[i]);
    }
  }

  /** All pairs of R match up to S and B. */
  ghost predicate AllMatch(T: Types, R: set<Pair>, S: set<Pair>, B: set<Pair>) {
    forall p :: p in R ==> Matches(T, S, B, p.0, p.1)
  }

  lemma AllMatchMore(T: Types, R: set<Pair>, A: set<Pair>, S: set<Pair>, B: set<Pair>)
    requires Bisimulation(T, R, A) && Covers(S, B, R, A)
    ensures AllMatch(T, R, S, B)
  {
    hide Matches, Covers;
    forall p | p in R ensures Matches(T, S, B, p.0, p.1) {
      MatchesMore(T, R, A, S, B, p.0, p.1);
    }
  }

  lemma UnionBisimulation(T: Types, R: set<Pair>, S: set<Pair>, A: set<Pair>)
    requires Bisimulation(T, R, A) && Bisimulation(T, S, A)
    ensures Bisimulation(T, R + S, A)
  {
    hide Matches;
    AllMatchMore(T, R, A, R + S, A);
    AllMatchMore(T, S, A, R + S, A);
  }

  /** The comparisons of x's may_equal on y from the i-th on are related. */
  ghost predicate HalfMatches(T: Types, R: set<Pair>, A: set<Pair>, x: Node, y: Node, i: nat) {
    && x in T && y in T && LocalTests(T[x], T[y])
    && (forall k :: i <= k < |Comparisons(T[x], T[y])| ==> RelatedIfPresent(R, A, Comparisons(T[x], T[y])[k]))
  }

  lemma HalfMatchesMore(T: Types, R: set<Pair>, A: set<Pair>, S: set<Pair>, B: set<Pair>, x: Node, y: Node, i: nat)
    requires HalfMatches(T, R, A, x, y, i) && Covers(S, B, R, A)
    ensures HalfMatches(T, S, B, x, y, i)
  {
    hide LocalTests, Comparisons, RelatedIfPresent, Covers;
    forall k | i <= k < |Comparisons(T[x], T[y])| ensures RelatedIfPresent(S, B, Comparisons(T[x], T[y])[k]) {
      RelatedMore(R, A, S, B, Comparisons(T[x], T[y])[k]);
    }
  }

  /** A verdict other than Unequal comes with a bisimulation up to the assumptions in force. */
  lemma {:induction false} EqualsIsSound(T: Types, rank: Node -> nat, max: nat, x: Node, y: Node, A: set<Pair>)
      returns (R: set<Pair>)
    requires Comparable(T, rank, max, x, y, A) && Equals(T, rank, max, x, y, A) != Unequal
    ensures Bisimulation(T, R, A) && Related(R, A, x, y)
    decreases Pairs(T) - A, rank(x) + rank(y), 2, 0
  {
    if x == y || Assumed(A, x, y) {
      R := {};
    } else {
      var R1 := MayEqualIsSound(T, rank, max, x, y, A);
      var R2 := MayEqualIsSound(T, rank, max, y, x, A);
      R := R1 + R2 + {(x, y)};
      AllMatchMore(T, R1, A + {(x, y)}, R, A);
      AllMatchMore(T, R2, A + {(y, x)}, R, A);
      HalfMatchesMore(T, R1, A + {(x, y)}, R, A, x, y, 0);
      HalfMatchesMore(T, R2, A + {(y, x)}, R, A, y, x, 0);
      hide LocalTests, Comparisons, RelatedIfPresent;
      assert Matches(T, R, A, x, y);
    }
  }

  lemma {:induction false} MayEqualIsSound(T: Types, rank: Node -> nat, max: nat, x: Node, y: Node, A: set<Pair>)
      returns (R: set<Pair>)
    requires Comparable(T, rank, max, x, y, A) && !Assumed(A, x, y) && MayEqual(T, rank, max, x, y, A) != Unequal
    ensures Bisimulation(T, R, A + {(x, y)}) && HalfMatches(T, R, A + {(x, y)}, x, y, 0)
    decreases Pairs(T) - A, rank(x) + rank(y), 1, 0
  {
    assert (x, y) in Pairs(T) && (x, y) !in A;
    if T[x].shape.WithDataMembers? {
      R := CompareIsSound(T, rank, max, x, y, A + {(x, y)}, 0);
    } else {
      R := CompareIsSound(T, rank, max, x, y, A, 0);
      HalfMatchesMore(T, R, A, R, A + {(x, y)}, x, y, 0);
      AllMatchMore(T, R, A, R, A + {(x, y)});
    }
  }

  lemma {:induction false} CompareIsSound(T: Types, rank: Node -> nat, max: nat, x: Node, y: Node, A: set<Pair>, i: nat)
      returns (R: set<Pair>)
    requires Comparable(T, rank, max, x, y, A) && LocalTests(T[x], T[y]) && i <= |Comparisons(T[x], T[y])|
    requires CompareFrom(T, rank, max, x, y, A, i) != Unequal
    ensures Bisimulation(T, R, A) && HalfMatches(T, R, A, x, y, i)
    decreases Pairs(T) - A, if T[x].shape.WithDataMembers? then 2 * max + 1 else rank(x) + rank(y), 0,
              |Comparisons(T[x], T[y])| - i
  {
    hide Comparisons, LocalTests, Matches, RelatedIfPresent;
    if i == |Comparisons(T[x], T[y])| {
      R := {};
    } else {
      ComparisonsAreTargets(T[x], T[y], i);
      var (a, b) := Comparisons(T[x], T[y])[i];
      var R1 := {};
      if a.Some? {
        R1 := EqualsIsSound(T, rank, max, a.value, b.value, A);
      }
      R := CompareIsSound(T, rank, max, x, y, A, i + 1);
      OneMoreRelated(T, R, R1, A, x, y, i);
      R := R + R1;
    }
  }

  lemma OneMoreRelated(T: Types, R: set<Pair>, S: set<Pair>, A: set<Pair>, x: Node, y: Node, i: nat)
    requires Bisimulation(T, R, A) && Bisimulation(T, S, A) && HalfMatches(T, R, A, x, y, i + 1)
    requires i < |Comparisons(T[x], T[y])|
    requires var c := Comparisons(T[x], T[y])[i]; c.0.Some? ==> c.1.Some? && Related(S, A, c.0.value, c.1.value)
    ensures Bisimulation(T, R + S, A) && HalfMatches(T, R + S, A, x, y, i)
  {
    hide Comparisons, LocalTests, Bisimulation;
    UnionBisimulation(T, R, S, A);
    HalfMatchesMore(T, R, A, R + S, A, x, y, i + 1);
    RelatedMore(S, A, R + S, A, Comparisons(T[x], T[y])[i]);
  }

  // ---- Completeness ----

  lemma {:induction false} EqualsIsComplete(T: Types, rank: Node -> nat, max: nat, x: Node, y: Node, A: set<Pair>,
                                            R: set<Pair>)
    requires Comparable(T, rank, max, x, y, A) && Bisimulation(T, R, A) && Related(R, A, x, y)
    ensures Equals(T, rank, max, x, y, A) != Unequal
    decreases Pairs(T) - A, rank(x) + rank(y), 2, 0
  {
    hide LocalTests, Comparisons, RelatedIfPresent;
    if x != y && !Assumed(A, x, y) {
      assert Matches(T, R, A, x, y);
      MayEqualIsComplete(T, rank, max, x, y, A, R);
      MayEqualIsComplete(T, rank, max, y, x, A, R);
    }
  }

  lemma {:induction false} MayEqualIsComplete(T: Types, rank: Node -> nat, max: nat, x: Node, y: Node, A: set<Pair>,
                                              R: set<Pair>)
    requires Comparable(T, rank, max, x, y, A) && !Assumed(A, x, y)
    requires Bisimulation(T, R, A) && HalfMatches(T, R, A, x, y, 0)
    ensures MayEqual(T, rank, max, x, y, A) != Unequal
    decreases Pairs(T) - A, rank(x) + rank(y), 1, 0
  {
    hide LocalTests, Comparisons, RelatedIfPresent, Matches;
    assert (x, y) in Pairs(T) && (x, y) !in A;
    if T[x].shape.WithDataMembers? {
      AllMatchMore(T, R, A, R, A + {(x, y)});
      HalfMatchesMore(T, R, A, R, A + {(x, y)}, x, y, 0);
      CompareIsComplete(T, rank, max, x, y, A + {(x, y)}, 0, R);
    } else {
      CompareIsComplete(T, rank, max, x, y, A, 0, R);
    }
  }

  lemma {:induction false} CompareIsComplete(T: Types, rank: Node -> nat, max: nat, x: Node, y: Node, A: set<Pair>,
                                             i: nat,
                                             R: set<Pair>)
    requires Comparable(T, rank, max, x, y, A) && LocalTests(T[x], T[y]) && i <= |Comparisons(T[x], T[y])|
    requires Bisimulation(T, R, A) && HalfMatches(T, R, A, x, y, i)
    ensures CompareFrom(T, rank, max, x, y, A, i) != Unequal
    decreases Pairs(T) - A, if T[x].shape.WithDataMembers? then 2 * max + 1 else rank(x) + rank(y), 0,
              |Comparisons(T[x], T[y])| - i
  {
    hide Comparisons, Bisimulation;
    if i < |Comparisons(T[x], T[y])| {
      ComparisonsAreTargets(T[x], T[y], i);
      var (a, b) := Comparisons(T[x], T[y])[i];
      assert RelatedIfPresent(R, A, Comparisons(T[x], T[y])[i]);
      if a.Some? {
        EqualsIsComplete(T, rank, max, a.value, b.value, A, R);
      }
      CompareIsComplete(T, rank, max, x, y, A, i + 1, R);
    }
  }

  /** Some bisimulation up to the assumptions relates the types. */
  ghost predicate BisimilarUpTo(T: Types, A: set<Pair>, x: Node, y: Node) {
    exists R :: Bisimulation(T, R, A) && Related(R, A, x, y)
  }

  /** Under any assumptions, two types compare other than unequal exactly when they are bisimilar up to them. */
  lemma EqualsIffBisimilarUpTo(T: Types, rank: Node -> nat, max: nat, x: Node, y: Node, A: set<Pair>)
    requires Comparable(T, rank, max, x, y, A)
    ensures Equals(T, rank, max, x, y, A) != Unequal <==> BisimilarUpTo(T, A, x, y)
  {
    hide Bisimulation, Related;
    if Equals(T, rank, max, x, y, A) != Unequal {
      var R := EqualsIsSound(T, rank, max, x, y, A);
    }
    if BisimilarUpTo(T, A, x, y) {
      var R :| Bisimulation(T, R, A) && Related(R, A, x, y);
      EqualsIsComplete(T, rank, max, x, y, A, R);
    }
  }

  /** With no assumptions, two types compare other than unequal exactly when some bisimulation for the
      local tests relates them. */
  lemma EqualsIffBisimilar(T: Types, rank: Node -> nat, max: nat, x: Node, y: Node)
    requires Comparable(T, rank, max, x, y, {})
    ensures Equals(T, rank, max, x, y, {}) != Unequal <==> Bisimilar(T, x, y)
  {
    if Equals(T, rank, max, x, y, {}) != Unequal {
      var R := EqualsIsSound(T, rank, max, x, y, {});
    }
    if Bisimilar(T, x, y) {
      var R :| Bisimulation(T, R, {}) && Related(R, {}, x, y);
      EqualsIsComplete(T, rank, max, x, y, {}, R);
    }
  }

  /** With no assumptions the verdict is never that the types are equal by assumption, except that a
      subprogram type inherits such a verdict, which no comparison without assumptions can yield. */
  lemma {:induction false} NoVerdictByAssumption(T: Types, rank: Node -> nat, max: nat, x: Node, y: Node)
    requires Comparable(T, rank, max, x, y, {})
    ensures Equals(T, rank, max, x, y, {}) != EqualByAssumption
    decreases rank(x) + rank(y), 1, 0
  {
    if x != y {
      if LocalTests(T[x], T[y]) && T[x].shape.Subprogram? { NoneByAssumption(T, rank, max, x, y, 0); }
      if LocalTests(T[y], T[x]) && T[y].shape.Subprogram? { NoneByAssumption(T, rank, max, y, x, 0); }
    }
  }

  lemma {:induction false} NoneByAssumption(T: Types, rank: Node -> nat, max: nat, x: Node, y: Node, i: nat)
    requires Comparable(T, rank, max, x, y, {}) && LocalTests(T[x], T[y]) && i <= |Comparisons(T[x], T[y])|
    requires !T[x].shape.WithDataMembers?
    ensures CompareFrom(T, rank, max, x, y, {}, i) != EqualByAssumption
    decreases rank(x) + rank(y), 0, |Comparisons(T[x], T[y])| - i
  {
    hide Comparisons;
    if i < |Comparisons(T[x], T[y])| {
      ComparisonsAreTargets(T[x], T[y], i);
      var (a, b) := Comparisons(T[x], T[y])[i];
      if a.Some? && b.Some? {
        NoVerdictByAssumption(T, rank, max, a.value, b.value);
      }
      NoneByAssumption(T, rank, max, x, y, i + 1);
    }
  }
}
