/** What the verdict on two types is, kind by kind, in terms of their own attributes and of the verdicts on the
    types that they refer to. */
module TypeShapes {
  import opened Wrappers
  import opened TypeEquality

  // ---- Assumptions in either order ----

  /** The same pairs are assumed equal. */
  ghost predicate AssumeSame(A: set<Pair>, B: set<Pair>) {
    && (forall x, y :: Assumed(A, x, y) <==> Assumed(B, x, y))
    && (A == {} <==> B == {})
  }

  lemma {:induction false} EqualsSame(T: Types, rank: Node -> nat, max: nat, x: Node, y: Node, A: set<Pair>,
                                      B: set<Pair>)
    requires Comparable(T, rank, max, x, y, A) && Comparable(T, rank, max, x, y, B) && AssumeSame(A, B)
    ensures Equals(T, rank, max, x, y, A) == Equals(T, rank, max, x, y, B)
    decreases Pairs(T) - A, rank(x) + rank(y), 2, 0
  {
    hide QuickTests, AssumeSame;
    assert Assumed(A, x, y) <==> Assumed(B, x, y) by { AssumedIff(A, B, x, y); }
    if x != y && !Assumed(A, x, y) && QuickTests(T[x], T[y]) {
      AssumedIff(A, B, y, x);
      MayEqualSame(T, rank, max, x, y, A, B);
      MayEqualSame(T, rank, max, y, x, A, B);
    }
  }

  lemma AssumedIff(A: set<Pair>, B: set<Pair>, x: Node, y: Node)
    requires AssumeSame(A, B)
    ensures Assumed(A, x, y) <==> Assumed(B, x, y)
    ensures AssumeSame(A + {(x, y)}, B + {(x, y)}) && AssumeSame(A + {(x, y)}, A + {(y, x)})
  {
    forall u: Node, v: Node
      ensures Assumed(A + {(x, y)}, u, v) <==> Assumed(A, u, v) || (u, v) == (x, y) || (v, u) == (x, y)
    {
    }
    forall u: Node, v: Node
      ensures Assumed(B + {(x, y)}, u, v) <==> Assumed(B, u, v) || (u, v) == (x, y) || (v, u) == (x, y)
    {
    }
    forall u: Node, v: Node
      ensures Assumed(A + {(y, x)}, u, v) <==> Assumed(A, u, v) || (u, v) == (x, y) || (v, u) == (x, y)
    {
    }
  }

  lemma {:induction false} MayEqualSame(T: Types, rank: Node -> nat, max: nat, x: Node, y: Node, A: set<Pair>,
                                        B: set<Pair>)
    requires Comparable(T, rank, max, x, y, A) && Comparable(T, rank, max, x, y, B) && AssumeSame(A, B)
    requires !Assumed(A, x, y) && !Assumed(B, x, y)
    ensures MayEqual(T, rank, max, x, y, A) == MayEqual(T, rank, max, x, y, B)
    decreases Pairs(T) - A, rank(x) + rank(y), 1, 0
  {
    if LocalTests(T[x], T[y]) {
      assert (x, y) in Pairs(T) && (x, y) !in A;
      if T[x].shape.WithDataMembers? {
        AssumedIff(A, B, x, y);
        FromSame(T, rank, max, x, y, A + {(x, y)}, B + {(x, y)}, 0);
      } else {
        FromSame(T, rank, max, x, y, A, B, 0);
      }
    }
  }

  lemma {:induction false} FromSame(T: Types, rank: Node -> nat, max: nat, x: Node, y: Node, A: set<Pair>,
                                    B: set<Pair>, i: nat)
    requires Comparable(T, rank, max, x, y, A) && Comparable(T, rank, max, x, y, B) && AssumeSame(A, B)
    requires LocalTests(T[x], T[y]) && i <= |Comparisons(T[x], T[y])|
    ensures CompareFrom(T, rank, max, x, y, A, i) == CompareFrom(T, rank, max, x, y, B, i)
    decreases Pairs(T) - A, if T[x].shape.WithDataMembers? then 2 * max + 1 else rank(x) + rank(y), 0,
              |Comparisons(T[x], T[y])| - i
  {
    hide AssumeSame, LocalTests, Comparisons;
    if i < |Comparisons(T[x], T[y])| {
      ComparisonsAreTargets(T[x], T[y], i);
      var (a, b) := Comparisons(T[x], T[y])[i];
      FromSame(T, rank, max, x, y, A, B, i + 1);
      if a.Some? && b.Some? { EqualsSame(T, rank, max, a.value, b.value, A, B); }
    }
  }

  /** The verdict is the same in either order. */
  lemma EqualsSymmetric(T: Types, rank: Node -> nat, max: nat, x: Node, y: Node, A: set<Pair>)
    requires Comparable(T, rank, max, x, y, A)
    ensures Equals(T, rank, max, x, y, A) == Equals(T, rank, max, y, x, A)
  {
    hide MayEqual;
  }

  // ---- The comparisons that a type makes ----

  ghost predicate Ready(T: Types, rank: Node -> nat, max: nat, A: set<Pair>) { Ranked(T, rank, max) && A <= Pairs(T) }

  /** Both are absent, or both are there and do not compare unequal. */
  ghost predicate Alike(T: Types, rank: Node -> nat, max: nat, A: set<Pair>, a: Option<Node>, b: Option<Node>)
    requires Ready(T, rank, max, A)
  {
    match (a, b)
    case (None, None) => true
    case (Some(n), Some(m)) => n in T && m in T && Equals(T, rank, max, n, m, A) != Unequal
    case _ => false
  }

  /** They compare equal, but only under the assumptions. */
  ghost predicate Marked(T: Types, rank: Node -> nat, max: nat, A: set<Pair>, a: Option<Node>, b: Option<Node>)
    requires Ready(T, rank, max, A)
  {
    a.Some? && b.Some? && a.value in T && b.value in T && Equals(T, rank, max, a.value, b.value, A) == EqualByAssumption
  }

  lemma AlikeSymmetric(T: Types, rank: Node -> nat, max: nat, A: set<Pair>, a: Option<Node>, b: Option<Node>)
    requires Ready(T, rank, max, A)
    ensures Alike(T, rank, max, A, a, b) <==> Alike(T, rank, max, A, b, a)
    ensures Marked(T, rank, max, A, a, b) <==> Marked(T, rank, max, A, b, a)
  {
    if a.Some? && b.Some? && a.value in T && b.value in T { EqualsSymmetric(T, rank, max, a.value, b.value, A); }
  }

  lemma {:induction false} FromIff(T: Types, rank: Node -> nat, max: nat, x: Node, y: Node, A: set<Pair>, i: nat)
    requires Comparable(T, rank, max, x, y, A) && LocalTests(T[x], T[y]) && i <= |Comparisons(T[x], T[y])|
    ensures var v, c := CompareFrom(T, rank, max, x, y, A, i), Comparisons(T[x], T[y]);
            && (v != Unequal <==> forall k :: i <= k < |c| ==> c[k].0.None? || Alike(T, rank, max, A, c[k].0, c[k].1))
            && (v != Unequal ==>
                  (v == EqualByAssumption <==> exists k :: i <= k < |c| && Marked(T, rank, max, A, c[k].0, c[k].1)))
    decreases |Comparisons(T[x], T[y])| - i
  {
    hide LocalTests, Comparisons, Equals;
    if i < |Comparisons(T[x], T[y])| {
      ComparisonsAreTargets(T[x], T[y], i);
      FromIff(T, rank, max, x, y, A, i + 1);
    }
  }

  /** The assumptions under which what x refers to is compared. */
  ghost function Within(T: Types, x: Node, y: Node, A: set<Pair>): set<Pair>
    requires x in T
  {
    if T[x].shape.WithDataMembers? then A + {(x, y)} else A
  }

  /** All that x is to be compared for on y is alike. */
  ghost predicate HalfAlike(T: Types, rank: Node -> nat, max: nat, x: Node, y: Node, A: set<Pair>)
    requires Ready(T, rank, max, A) && x in T && y in T
  {
    && LocalTests(T[x], T[y])
    && forall k :: 0 <= k < |Comparisons(T[x], T[y])| ==>
         var c := Comparisons(T[x], T[y])[k]; c.0.None? || Alike(T, rank, max, A, c.0, c.1)
  }

  ghost predicate HalfMarked(T: Types, rank: Node -> nat, max: nat, x: Node, y: Node, A: set<Pair>)
    requires Ready(T, rank, max, A) && x in T && y in T
  {
    && LocalTests(T[x], T[y])
    && exists k :: 0 <= k < |Comparisons(T[x], T[y])|
                   && var c := Comparisons(T[x], T[y])[k]; Marked(T, rank, max, A, c.0, c.1)
  }

  lemma HalfIff(T: Types, rank: Node -> nat, max: nat, x: Node, y: Node, A: set<Pair>)
    requires Comparable(T, rank, max, x, y, A) && !Assumed(A, x, y)
    ensures var v, B := MayEqual(T, rank, max, x, y, A), Within(T, x, y, A);
            && B <= Pairs(T) && (v != Unequal <==> HalfAlike(T, rank, max, x, y, B))
            && (v == EqualByAssumption ==> HalfMarked(T, rank, max, x, y, B))
            && (v == Equal && HalfMarked(T, rank, max, x, y, B) ==>
                  if T[x].shape.WithDataMembers? then A == {} else !T[x].shape.Subprogram?)
            && (v == EqualByAssumption ==> if T[x].shape.WithDataMembers? then A != {} else T[x].shape.Subprogram?)
  {
    hide LocalTests, Comparisons, Alike, Marked;
    var B := Within(T, x, y, A);
    if LocalTests(T[x], T[y]) { FromIff(T, rank, max, x, y, B, 0); }
  }

  /** x and y are distinct, not assumed equal, and can be compared. */
  ghost predicate Distinct(T: Types, rank: Node -> nat, max: nat, x: Node, y: Node, A: set<Pair>) {
    Comparable(T, rank, max, x, y, A) && x != y && !Assumed(A, x, y)
  }

  lemma BothIff(T: Types, rank: Node -> nat, max: nat, x: Node, y: Node, A: set<Pair>)
    requires Distinct(T, rank, max, x, y, A)
    ensures var v := Equals(T, rank, max, x, y, A);
            && Within(T, x, y, A) <= Pairs(T) && Within(T, y, x, A) <= Pairs(T)
            && (v != Unequal <==>
                  && QuickTests(T[x], T[y]) && HalfAlike(T, rank, max, x, y, Within(T, x, y, A))
                  && HalfAlike(T, rank, max, y, x, Within(T, y, x, A)))
            && (v != Unequal ==>
                  (v == EqualByAssumption <==>
                     && (if T[x].shape.WithDataMembers? then A != {} else T[x].shape.Subprogram?)
                     && (|| HalfMarked(T, rank, max, x, y, Within(T, x, y, A))
                         || HalfMarked(T, rank, max, y, x, Within(T, y, x, A)))))
  {
    hide QuickTests, HalfAlike, HalfMarked;
    HalfIff(T, rank, max, x, y, A);
    HalfIff(T, rank, max, y, x, A);
    if LocalTests(T[x], T[y]) { SameShape(T[x], T[y]); }
    LocalIfAlike(T, rank, max, x, y, Within(T, x, y, A));
  }

  lemma SameShape(x: TypeDie, y: TypeDie)
    requires LocalTests(x, y)
    ensures x.shape.WithDataMembers? <==> y.shape.WithDataMembers?
    ensures x.shape.Subprogram? <==> y.shape.Subprogram?
  {
  }

  lemma LocalIfAlike(T: Types, rank: Node -> nat, max: nat, x: Node, y: Node, A: set<Pair>)
    requires Ready(T, rank, max, A) && x in T && y in T
    ensures HalfAlike(T, rank, max, x, y, A) ==> LocalTests(T[x], T[y])
  {
  }

  // ---- Kind by kind ----

  /** Base types: name, encoding and sizes. */
  lemma BasesCompare(T: Types, rank: Node -> nat, max: nat, x: Node, y: Node, A: set<Pair>)
    requires Distinct(T, rank, max, x, y, A) && T[x].shape.Base?
    ensures var (d, e) := (T[x], T[y]);
            Equals(T, rank, max, x, y, A)
            == if d.tag == e.tag && d.name == e.name && d.code == e.code && d.shape == e.shape then Equal else Unequal
  {
    hide Equals, Distinct, Alike, Marked;
    BothIff(T, rank, max, x, y, A);
  }

  /** Pointers, references, qualified types and the like: what they refer to, if anything; a missing name is like
      any other. */
  lemma ChainsCompare(T: Types, rank: Node -> nat, max: nat, x: Node, y: Node, A: set<Pair>)
    requires Distinct(T, rank, max, x, y, A) && T[x].shape.Chain?
    ensures var (d, e) := (T[x], T[y]);
            Equals(T, rank, max, x, y, A)
            == if && d.tag == e.tag && d.code == e.code
                  && (d.name == e.name || d.name.None? || e.name.None?)
                  && e.shape.Chain? && Alike(T, rank, max, A, d.shape.target, e.shape.target)
               then Equal else Unequal
  {
    hide Equals, Ranked, Marked;
    BothIff(T, rank, max, x, y, A);
    if T[y].shape.Chain? {
      AlikeSymmetric(T, rank, max, A, T[x].shape.target, T[y].shape.target);
      OneHalf(T, rank, max, x, y, A);
      OneHalf(T, rank, max, y, x, A);
    }
  }

  /** Typedefs: the same name, and what they refer to. */
  lemma TypedefsCompare(T: Types, rank: Node -> nat, max: nat, x: Node, y: Node, A: set<Pair>)
    requires Distinct(T, rank, max, x, y, A) && T[x].shape.Typedef?
    ensures var (d, e) := (T[x], T[y]);
            Equals(T, rank, max, x, y, A)
            == if && d.tag == e.tag && d.code == e.code && d.name.Some? && d.name == e.name
                  && e.shape.Typedef? && Alike(T, rank, max, A, d.shape.target, e.shape.target)
               then Equal else Unequal
  {
    hide Equals, Ranked, Marked;
    BothIff(T, rank, max, x, y, A);
    if T[y].shape.Typedef? {
      AlikeSymmetric(T, rank, max, A, T[x].shape.target, T[y].shape.target);
      OneHalf(T, rank, max, x, y, A);
      OneHalf(T, rank, max, y, x, A);
    }
  }

  /** Distinct pointers to members never compare equal. */
  lemma PtrsToMembersCompare(T: Types, rank: Node -> nat, max: nat, x: Node, y: Node, A: set<Pair>)
    requires Distinct(T, rank, max, x, y, A) && T[x].shape.PtrToMember?
    ensures Equals(T, rank, max, x, y, A) == Unequal
  {
    hide Equals, Ranked, Alike, Marked;
    BothIff(T, rank, max, x, y, A);
  }

  /** Arrays: the types of the subranges, where they have one, and the element type. */
  lemma ArraysCompare(T: Types, rank: Node -> nat, max: nat, x: Node, y: Node, A: set<Pair>)
    requires Distinct(T, rank, max, x, y, A) && T[x].shape.ArrayOf?
    ensures var (d, e) := (T[x], T[y]);
            Equals(T, rank, max, x, y, A)
            == if && d.tag == e.tag && d.code == e.code && d.name == e.name && e.shape.ArrayOf?
                  && |d.shape.subranges| == |e.shape.subranges|
                  && (forall i :: 0 <= i < |d.shape.subranges| ==>
                        Alike(T, rank, max, A, d.shape.subranges[i], e.shape.subranges[i]))
                  && Alike(T, rank, max, A, Some(d.shape.element), Some(e.shape.element))
               then Equal else Unequal
  {
    hide Equals, Ranked, Marked;
    BothIff(T, rank, max, x, y, A);
    if T[y].shape.ArrayOf? && |T[x].shape.subranges| == |T[y].shape.subranges| {
      ArrayHalf(T, rank, max, x, y, A);
      ArrayHalf(T, rank, max, y, x, A);
      forall a, b ensures Alike(T, rank, max, A, a, b) <==> Alike(T, rank, max, A, b, a) {
        AlikeSymmetric(T, rank, max, A, a, b);
      }
    }
  }

  /** Enumerations: the underlying type, and the same enumerators. */
  lemma EnumerationsCompare(T: Types, rank: Node -> nat, max: nat, x: Node, y: Node, A: set<Pair>)
    requires Distinct(T, rank, max, x, y, A) && T[x].shape.Enumeration?
    ensures var (d, e) := (T[x], T[y]);
            Equals(T, rank, max, x, y, A)
            == if && d.tag == e.tag && d.code == e.code && d.name == e.name && e.shape.Enumeration?
                  && d.shape.enumerators == e.shape.enumerators
                  && Alike(T, rank, max, A, d.shape.target, e.shape.target)
               then Equal else Unequal
  {
    hide Equals, Ranked, Marked;
    BothIff(T, rank, max, x, y, A);
    if T[y].shape.Enumeration? {
      AlikeSymmetric(T, rank, max, A, T[x].shape.target, T[y].shape.target);
      OneHalf(T, rank, max, x, y, A);
      OneHalf(T, rank, max, y, x, A);
    }
  }

  /** Subranges: the base type, and the same bounds and count. */
  lemma SubrangesCompare(T: Types, rank: Node -> nat, max: nat, x: Node, y: Node, A: set<Pair>)
    requires Distinct(T, rank, max, x, y, A) && T[x].shape.Subrange?
    ensures var (d, e) := (T[x], T[y]);
            Equals(T, rank, max, x, y, A)
            == if && d.tag == e.tag && d.code == e.code && d.name == e.name && e.shape.Subrange?
                  && d.shape.lower == e.shape.lower && d.shape.upper == e.shape.upper
                  && d.shape.count == e.shape.count && Alike(T, rank, max, A, d.shape.target, e.shape.target)
               then Equal else Unequal
  {
    hide Equals, Ranked, Marked;
    BothIff(T, rank, max, x, y, A);
    if T[y].shape.Subrange? {
      AlikeSymmetric(T, rank, max, A, T[x].shape.target, T[y].shape.target);
      OneHalf(T, rank, max, x, y, A);
      OneHalf(T, rank, max, y, x, A);
    }
  }

  /** Strings: the same dynamic length, or else the same size. */
  lemma StringsCompare(T: Types, rank: Node -> nat, max: nat, x: Node, y: Node, A: set<Pair>)
    requires Distinct(T, rank, max, x, y, A) && T[x].shape.StringOf?
    ensures var (d, e) := (T[x], T[y]);
            Equals(T, rank, max, x, y, A)
            == if && d.tag == e.tag && d.code == e.code && d.name == e.name && e.shape.StringOf?
                  && d.shape.dynamicLength == e.shape.dynamicLength
                  && (d.shape.dynamicLength.Some? || d.shape.byteSize == e.shape.byteSize)
               then Equal else Unequal
  {
    hide Equals, Ranked, Alike, Marked;
    BothIff(T, rank, max, x, y, A);
  }

  /** Unspecified types: nothing else. */
  lemma UnspecifiedCompare(T: Types, rank: Node -> nat, max: nat, x: Node, y: Node, A: set<Pair>)
    requires Distinct(T, rank, max, x, y, A) && T[x].shape.Unspecified?
    ensures var (d, e) := (T[x], T[y]);
            Equals(T, rank, max, x, y, A)
            == if && d.tag == e.tag && d.code == e.code
                  && (d.name == e.name || d.name.None? || e.name.None?) && e.shape.Unspecified?
               then Equal else Unequal
  {
    hide Equals, Ranked, Alike, Marked;
    BothIff(T, rank, max, x, y, A);
  }

  /** Subprograms: the return type, if any, and the types of the parameters. The verdict is marked if one on these
      is. */
  lemma SubprogramsCompare(T: Types, rank: Node -> nat, max: nat, x: Node, y: Node, A: set<Pair>)
    requires Distinct(T, rank, max, x, y, A) && T[x].shape.Subprogram?
    ensures var (d, e) := (T[x], T[y]);
            Equals(T, rank, max, x, y, A) != Unequal
            <==> && d.tag == e.tag && d.code == e.code && d.name == e.name && e.shape.Subprogram?
                 && d.shape.variadic == e.shape.variadic && |d.shape.params| == |e.shape.params|
                 && Alike(T, rank, max, A, d.shape.target, e.shape.target)
                 && forall i :: 0 <= i < |d.shape.params| ==>
                      Alike(T, rank, max, A, Some(d.shape.params[i]), Some(e.shape.params[i]))
    ensures Equals(T, rank, max, x, y, A) != Unequal ==>
              var (s, t) := (T[x].shape, T[y].shape);
              && t.Subprogram? && |t.params| == |s.params|
              && (Equals(T, rank, max, x, y, A) == EqualByAssumption
                  <==> || Marked(T, rank, max, A, s.target, t.target)
                       || exists i :: 0 <= i < |s.params|
                                      && Marked(T, rank, max, A, Some(s.params[i]), Some(t.params[i])))
  {
    hide Equals, Ranked, Alike, Marked;
    BothIff(T, rank, max, x, y, A);
    if T[y].shape.Subprogram? && |T[x].shape.params| == |T[y].shape.params| {
      SubprogramHalf(T, rank, max, x, y, A);
      SubprogramHalf(T, rank, max, y, x, A);
      forall a, b
        ensures Alike(T, rank, max, A, a, b) <==> Alike(T, rank, max, A, b, a)
        ensures Marked(T, rank, max, A, a, b) <==> Marked(T, rank, max, A, b, a)
      {
        AlikeSymmetric(T, rank, max, A, a, b);
      }
    }
  }

  /** Types with data members: the same name, or the same associated name if they have none, and members at the
      same locations with types that compare other than unequal if the two are assumed equal. The verdict is marked if
      one on these is and other assumptions are in force. */
  lemma DataMembersCompare(T: Types, rank: Node -> nat, max: nat, x: Node, y: Node, A: set<Pair>)
    requires Distinct(T, rank, max, x, y, A) && T[x].shape.WithDataMembers?
    ensures A + {(x, y)} <= Pairs(T)
    ensures var (d, e) := (T[x], T[y]);
            Equals(T, rank, max, x, y, A) != Unequal
            <==> && d.tag == e.tag && d.code == e.code && d.name == e.name && e.shape.WithDataMembers?
                 && (d.name.None? ==> d.shape.associatedName == e.shape.associatedName)
                 && |d.shape.members| == |e.shape.members|
                 && forall i :: 0 <= i < |d.shape.members| ==>
                      && d.shape.members[i].location == e.shape.members[i].location
                      && Alike(T, rank, max, A + {(x, y)}, Some(d.shape.members[i].memberType),
                               Some(e.shape.members[i].memberType))
    ensures Equals(T, rank, max, x, y, A) != Unequal ==>
              var (s, t) := (T[x].shape, T[y].shape);
              && t.WithDataMembers? && |t.members| == |s.members|
              && (Equals(T, rank, max, x, y, A) == EqualByAssumption
                  <==> A != {} && exists i :: 0 <= i < |s.members| && Marked(T, rank, max, A + {(x, y)},
                                                  Some(s.members[i].memberType), Some(t.members[i].memberType)))
  {
    hide Equals, Ranked, Alike, Marked;
    BothIff(T, rank, max, x, y, A);
    if T[y].shape.WithDataMembers? && |T[x].shape.members| == |T[y].shape.members| {
      var B, C := A + {(x, y)}, A + {(y, x)};
      MemberHalf(T, rank, max, x, y, B);
      MemberHalf(T, rank, max, y, x, C);
      AssumedIff(A, A, x, y);
      forall a, b
        ensures Alike(T, rank, max, B, a, b) <==> Alike(T, rank, max, C, b, a)
        ensures Marked(T, rank, max, B, a, b) <==> Marked(T, rank, max, C, b, a)
      {
        AlikeSame(T, rank, max, B, C, a, b);
      }
    }
  }

  // ---- One half of the comparison, by kind ----

  /** The kinds that refer to one type, if any. */
  lemma OneHalf(T: Types, rank: Node -> nat, max: nat, x: Node, y: Node, A: set<Pair>)
    requires Ready(T, rank, max, A) && x in T && y in T
    requires var (s, t) := (T[x].shape, T[y].shape);
             || (s.Chain? && t.Chain?) || (s.Typedef? && t.Typedef?) || (s.Enumeration? && t.Enumeration?)
             || (s.Subrange? && t.Subrange?)
    ensures HalfAlike(T, rank, max, x, y, A)
            <==> LocalTests(T[x], T[y]) && Alike(T, rank, max, A, T[x].shape.target, T[y].shape.target)
  {
    hide Equals, Ranked;
    if LocalTests(T[x], T[y]) {
      assert |Comparisons(T[x], T[y])| == 1;
      assert Comparisons(T[x], T[y])[0] == (T[x].shape.target, T[y].shape.target);
    }
  }

  lemma ArrayHalf(T: Types, rank: Node -> nat, max: nat, x: Node, y: Node, A: set<Pair>)
    requires Ready(T, rank, max, A) && x in T && y in T && T[x].shape.ArrayOf? && T[y].shape.ArrayOf?
    requires |T[x].shape.subranges| == |T[y].shape.subranges|
    ensures HalfAlike(T, rank, max, x, y, A)
            <==> && T[x].tag == T[y].tag && T[x].name == T[y].name
                 && (forall i :: 0 <= i < |T[x].shape.subranges| ==>
                       || T[x].shape.subranges[i].None?
                       || Alike(T, rank, max, A, T[x].shape.subranges[i], T[y].shape.subranges[i]))
                 && Alike(T, rank, max, A, Some(T[x].shape.element), Some(T[y].shape.element))
  {
    hide Equals, Ranked;
    var d, e := T[x], T[y];
    var n := |d.shape.subranges|;
    if LocalTests(d, e) {
      var c := Comparisons(d, e);
      assert |c| == n + 1 && c[n] == (Some(d.shape.element), Some(e.shape.element));
      assert forall i :: 0 <= i < n ==> c[i] == (d.shape.subranges[i], e.shape.subranges[i]);
    }
  }

  lemma SubprogramHalf(T: Types, rank: Node -> nat, max: nat, x: Node, y: Node, A: set<Pair>)
    requires Ready(T, rank, max, A) && x in T && y in T && T[x].shape.Subprogram? && T[y].shape.Subprogram?
    requires |T[x].shape.params| == |T[y].shape.params|
    ensures var (d, e) := (T[x], T[y]);
            HalfAlike(T, rank, max, x, y, A)
            <==> && d.tag == e.tag && d.name == e.name && d.shape.variadic == e.shape.variadic
                 && Alike(T, rank, max, A, d.shape.target, e.shape.target)
                 && forall i :: 0 <= i < |d.shape.params| ==>
                      Alike(T, rank, max, A, Some(e.shape.params[i]), Some(d.shape.params[i]))
    ensures LocalTests(T[x], T[y]) ==>
              var (d, e) := (T[x], T[y]);
              HalfMarked(T, rank, max, x, y, A)
              <==> || Marked(T, rank, max, A, d.shape.target, e.shape.target)
                   || exists i :: 0 <= i < |d.shape.params|
                                  && Marked(T, rank, max, A, Some(e.shape.params[i]), Some(d.shape.params[i]))
  {
    hide Equals, Ranked;
    var d, e := T[x], T[y];
    var n := |d.shape.params|;
    if LocalTests(d, e) {
      var c := Comparisons(d, e);
      assert |c| == n + 1 && c[0] == (d.shape.target, e.shape.target);
      assert forall i :: 0 <= i < n ==> c[i + 1] == (Some(e.shape.params[i]), Some(d.shape.params[i]));
      assert forall k :: 0 < k < n + 1 ==> c[k] == (Some(e.shape.params[k - 1]), Some(d.shape.params[k - 1]));
    }
  }

  lemma MemberHalf(T: Types, rank: Node -> nat, max: nat, x: Node, y: Node, A: set<Pair>)
    requires Ready(T, rank, max, A) && x in T && y in T
    requires T[x].shape.WithDataMembers? && T[y].shape.WithDataMembers?
    requires |T[x].shape.members| == |T[y].shape.members|
    ensures var (d, e) := (T[x], T[y]);
            HalfAlike(T, rank, max, x, y, A)
            <==> && d.tag == e.tag && d.name == e.name
                 && (d.name.None? ==> d.shape.associatedName == e.shape.associatedName)
                 && forall i :: 0 <= i < |d.shape.members| ==>
                      && d.shape.members[i].location == e.shape.members[i].location
                      && Alike(T, rank, max, A, Some(d.shape.members[i].memberType),
                               Some(e.shape.members[i].memberType))
    ensures LocalTests(T[x], T[y]) ==>
              var (d, e) := (T[x], T[y]);
              HalfMarked(T, rank, max, x, y, A)
              <==> exists i :: 0 <= i < |d.shape.members|
                               && Marked(T, rank, max, A, Some(d.shape.members[i].memberType),
                                         Some(e.shape.members[i].memberType))
  {
    hide Equals, Ranked;
    var d, e := T[x], T[y];
    if LocalTests(d, e) {
      var c := Comparisons(d, e);
      assert |c| == |d.shape.members|;
      assert forall i :: 0 <= i < |c| ==>
          c[i] == (Some(d.shape.members[i].memberType), Some(e.shape.members[i].memberType));
    }
  }

  lemma AlikeSame(T: Types, rank: Node -> nat, max: nat, A: set<Pair>, B: set<Pair>, a: Option<Node>, b: Option<Node>)
    requires Ready(T, rank, max, A) && Ready(T, rank, max, B) && AssumeSame(A, B)
    ensures Alike(T, rank, max, A, a, b) <==> Alike(T, rank, max, B, b, a)
    ensures Marked(T, rank, max, A, a, b) <==> Marked(T, rank, max, B, b, a)
  {
    hide Equals, Ranked, AssumeSame;
    AlikeSymmetric(T, rank, max, A, a, b);
    if a.Some? && b.Some? && a.value in T && b.value in T { EqualsSame(T, rank, max, b.value, a.value, A, B); }
  }
}
