/** The cache of type equality: equivalence classes of type DIEs, found through a map from offsets and
    through an index by summary code; and the order on DIEs that is built on the list of classes. */
module EqualityCache {
  import opened Wrappers

  type Offset = nat

  /** The equality that is cached, with no assumptions in force, and the summary codes. */
  datatype Equality = Equality(eq: (Offset, Offset) -> bool, code: Offset -> Option<nat>) {
    /** The equality is an equivalence, and equal types have the same code, if any. */
    ghost predicate Valid() {
      && (forall x :: eq(x, x))
      && (forall x, y :: eq(x, y) ==> eq(y, x) && code(x) == code(y))
      && (forall x, y, z :: eq(x, y) && eq(y, z) ==> eq(x, z))
    }
  }

  /** A comparison of other types made while two types are compared, with the work inside it. */
  datatype Call = Call(x: Offset, y: Offset, work: Work)

  datatype Calls = Calls(list: seq<Call>)

  /** The comparisons made while two types are compared: those inside the comparison itself, and those inside
      each comparison with a candidate, in the first and the second search for a class. */
  datatype Work = Work(inside: Calls, first: seq<Calls>, second: seq<Calls>)

  /** The list of classes, the class of each offset, and the classes for each code. */
  datatype State = State(classes: seq<set<Offset>>, classOf: map<Offset, nat>, byCode: map<Option<nat>, seq<nat>>) {
    function Candidates(c: Option<nat>): seq<nat> { if c in byCode then byCode[c] else [] }
  }

  /** Every class is non-empty and holds the offsets that the map sends to it; its members are equal to
      each other and to no member of another class; and it is indexed by their code. */
  ghost predicate CacheInv(e: Equality, s: State) {
    && (forall o :: o in s.classOf ==> s.classOf[o] < |s.classes|)
    && (forall i, o :: 0 <= i < |s.classes| ==> (o in s.classes[i] <==> o in s.classOf && s.classOf[o] == i))
    && (forall i :: 0 <= i < |s.classes| ==> s.classes[i] != {})
    && (forall o, p :: o in s.classOf && p in s.classOf ==> (s.classOf[o] == s.classOf[p] <==> e.eq(o, p)))
    && (forall c, k :: c in s.byCode && 0 <= k < |s.byCode[c]| ==> s.byCode[c][k] < |s.classes|)
    && (forall o :: o in s.classOf ==> e.code(o) in s.byCode && s.classOf[o] in s.byCode[e.code(o)])
    && (forall c, o :: c in s.byCode && o in s.classOf && s.classOf[o] in s.byCode[c] ==> e.code(o) == c)
  }

  /** Later states keep every entry; classes only grow or are appended, also to the index. */
  ghost predicate Grows(s: State, t: State) {
    && |s.classes| <= |t.classes|
    && (forall i :: 0 <= i < |s.classes| ==> s.classes[i] <= t.classes[i])
    && (forall o :: o in s.classOf ==> o in t.classOf && t.classOf[o] == s.classOf[o])
    && (forall c :: c in s.byCode ==> c in t.byCode && s.byCode[c] <= t.byCode[c])
  }

  lemma GrowsSelf(s: State)
    ensures Grows(s, s)
  {
  }

  lemma GrowsTrans(s: State, t: State, u: State)
    requires Grows(s, t) && Grows(t, u)
    ensures Grows(s, u)
  {
    forall i | 0 <= i < |s.classes| ensures s.classes[i] <= u.classes[i] {
      assert s.classes[i] <= t.classes[i] && t.classes[i] <= u.classes[i];
    }
    forall c | c in s.byCode ensures c in u.byCode && s.byCode[c] <= u.byCode[c] {
      assert s.byCode[c] <= t.byCode[c] && t.byCode[c] <= u.byCode[c];
    }
  }

  /** Where offset o belongs: in class k, of its equals, or in a new class if there is none. */
  ghost predicate Belongs(e: Equality, s: State, o: Offset, k: nat) {
    if k < |s.classes| then exists p :: p in s.classOf && s.classOf[p] == k && e.eq(p, o)
    else k == |s.classes| && forall p :: p in s.classOf ==> !e.eq(p, o)
  }

  function AddToClass(s: State, o: Offset, k: nat): State
    requires k < |s.classes|
  {
    s.(classes := s.classes[k := s.classes[k] + {o}])
  }

  /** A new class at the end, with its entry in the index. */
  function AppendClass(s: State, c: Option<nat>, first: set<Offset>): State {
    s.(classes := s.classes + [first], byCode := s.byCode[c := s.Candidates(c) + [|s.classes|]])
  }

  /** The entry of o goes to class k, old or new, unless it has one. */
  function Installed(e: Equality, s: State, o: Offset, k: nat): State {
    var t := if k < |s.classes| then AddToClass(s, o, k) else AppendClass(s, e.code(o), {o});
    if o in s.classOf then t else t.(classOf := s.classOf[o := k])
  }

  /** Putting o into the class it belongs to keeps the cache right. */
  lemma AddKeepsInv(e: Equality, s: State, o: Offset, k: nat)
    requires e.Valid() && CacheInv(e, s) && Belongs(e, s, o, k)
    ensures var t := Installed(e, s, o, k);
            CacheInv(e, t) && Grows(s, t) && o in t.classOf && t.classOf[o] == k
  {
    hide CacheInv, Grows, Equality.Valid;
    if o in s.classOf {
      HasItsClass(e, s, o, k);
      assert Installed(e, s, o, k) == s by {
        assert s.classes[k := s.classes[k] + {o}] == s.classes;
      }
      GrowsSelf(s);
    } else if k < |s.classes| {
      InsertKeepsInv(e, s, o, k);
    } else {
      AppendKeepsInv(e, s, o);
    }
  }

  lemma InsertKeepsInv(e: Equality, s: State, o: Offset, k: nat)
    requires e.Valid() && CacheInv(e, s) && o !in s.classOf && k < |s.classes| && Belongs(e, s, o, k)
    ensures var t := AddToClass(s, o, k).(classOf := s.classOf[o := k]);
            CacheInv(e, t) && Grows(s, t)
  {
    hide Equality.Valid, Belongs;
    OneClassEach(e, s, o, k);
  }

  lemma OneClassEach(e: Equality, s: State, o: Offset, k: nat)
    requires e.Valid() && CacheInv(e, s) && o !in s.classOf && k < |s.classes| && Belongs(e, s, o, k)
    ensures forall q :: q in s.classOf ==> (s.classOf[q] == k <==> e.eq(q, o)) && (e.eq(q, o) <==> e.eq(o, q))
    ensures e.eq(o, o) && e.code(o) in s.byCode && k in s.byCode[e.code(o)]
    ensures forall c :: c in s.byCode && k in s.byCode[c] ==> c == e.code(o)
  {
    var p :| p in s.classOf && s.classOf[p] == k && e.eq(p, o);
  }

  lemma AppendKeepsInv(e: Equality, s: State, o: Offset)
    requires e.Valid() && CacheInv(e, s) && o !in s.classOf && Belongs(e, s, o, |s.classes|)
    ensures var t := AppendClass(s, e.code(o), {o}).(classOf := s.classOf[o := |s.classes|]);
            CacheInv(e, t) && Grows(s, t)
  {
  }

  class TypeEqualityCache {
    const e: Equality
    var classes: seq<set<Offset>>
    var classOf: map<Offset, nat>
    var byCode: map<Option<nat>, seq<nat>>

    ghost function Now(): State
      reads this
    {
      State(classes, classOf, byCode)
    }

    ghost predicate Valid()
      reads this
    {
      e.Valid() && CacheInv(e, Now())
    }

    constructor (e: Equality)
      requires e.Valid()
      ensures Valid() && this.e == e && classes == [] && classOf == map[]
    {
      this.e, classes, classOf, byCode := e, [], map[], map[];
    }

    /** A positive or negative result, if both types have a class. */
    method CheckCached(x: Offset, y: Offset) returns (r: Option<bool>)
      requires Valid()
      ensures r.Some? <==> x in classOf && y in classOf
      ensures r.Some? ==> r.value == e.eq(x, y)
    {
      if x !in classOf || y !in classOf {
        return None;
      }
      if classOf[x] == classOf[y] {
        return Some(true);
      }
      var xRep := Representative(classes[classOf[x]]);
      var yRep := Representative(classes[classOf[y]]);
      assert classOf[xRep] == classOf[x] && classOf[yRep] == classOf[y];
      return Some(xRep == yRep);
    }

    /** Compares types while others are compared. */
    method CompareAll(calls: Calls)
      requires Valid()
      modifies this
      ensures Valid() && Grows(old(Now()), Now())
      decreases calls, 0
    {
      hide CacheInv, Grows;
      GrowsSelf(Now());
      for i := 0 to |calls.list|
        invariant Valid() && Grows(old(Now()), Now())
      {
        ghost var s := Now();
        var c := calls.list[i];
        var verdict := Equal(c.x, c.y, c.work);
        GrowsTrans(old(Now()), s, Now());
      }
    }

    /** Adds o to the class of an existing representative with the same code that equals it, or else makes a
        new, empty class, indexed by the code of o. The comparisons with representatives may cache results,
        append classes that are then searched too, and even give o its class meanwhile. */
    method FindOrCreate(o: Offset, w: Work, again: bool) returns (k: nat, ghost s: State)
      requires Valid()
      modifies this
      ensures CacheInv(e, s) && Grows(old(Now()), s) && Belongs(e, s, o, k)
      ensures Now() == if k < |s.classes| then AddToClass(s, o, k) else AppendClass(s, e.code(o), {})
      decreases w, 1
    {
      hide CacheInv, Grows;
      var during := if again then w.second else w.first;
      var i := 0;
      s := Now();
      GrowsSelf(s);
      while e.code(o) in byCode && i < |byCode[e.code(o)]|
        invariant s == Now() && Valid() && Grows(old(Now()), s)
        invariant 0 <= i <= |s.Candidates(e.code(o))| && Ruled(e, s, o, i)
        decreases if i < |during| then |during| - i else 0, |s.Candidates(e.code(o))| - i
      {
        var c := byCode[e.code(o)][i];
        CandidateIsClass(e, s, e.code(o), i);
        var rep := Representative(classes[c]);
        GrowsSelf(s);
        if i < |during| {
          CompareAll(during[i]);
        }
        StaysRuled(e, s, Now(), o, i);
        GrowsTrans(old(Now()), s, Now());
        StaysMember(e, s, Now(), c, rep);
        s := Now();
        if e.eq(rep, o) {
          k := c;
          classes := classes[k := classes[k] + {o}];
          return;
        }
        RuleOut(e, s, o, i, rep);
        i := i + 1;
      }
      NotInAnyClass(e, s, o);
      k := |classes|;
      classes := classes + [{}];
      byCode := byCode[e.code(o) := (if e.code(o) in byCode then byCode[e.code(o)] else []) + [k]];
    }

    /** Gives o an entry in the class where it belongs, unless it got one meanwhile. */
    method Install(o: Offset, w: Work, again: bool) returns (k: nat)
      requires Valid()
      modifies this
      ensures Valid() && Grows(old(Now()), Now()) && o in classOf && classOf[o] == k
      decreases w, 2
    {
      hide CacheInv, Grows;
      ghost var s;
      k, s := FindOrCreate(o, w, again);
      classes := classes[k := classes[k] + {o}];
      if o !in classOf {
        classOf := classOf[o := k];
      }
      IsInstalled(e, s, o, k, classes);
      AddKeepsInv(e, s, o, k);
      GrowsTrans(old(Now()), s, Now());
    }

    /** Adds o to class k, whose members it equals. */
    method AddTo(o: Offset, k: nat)
      requires Valid() && o !in classOf && k < |classes| && Belongs(e, Now(), o, k)
      modifies this`classes, this`classOf
      ensures Valid() && Grows(old(Now()), Now()) && classOf == old(classOf)[o := k]
    {
      hide CacheInv, Grows;
      AddKeepsInv(e, Now(), o, k);
      classes := classes[k := classes[k] + {o}];
      classOf := classOf[o := k];
    }

    /** Compares two types through the cache. While they are compared, the comparisons inside are made,
        which may cache results of their own, even this one. */
    method Equal(x: Offset, y: Offset, w: Work) returns (r: bool)
      requires Valid()
      modifies this
      ensures Valid() && Grows(old(Now()), Now())
      ensures r == e.eq(x, y)
      ensures x != y ==> x in classOf && y in classOf
      decreases w, 4
    {
      hide CacheInv, Grows;
      GrowsSelf(Now());
      if x == y {
        return true;
      }
      var cached := CheckCached(x, y);
      if cached.Some? {
        return cached.value;
      }
      CompareAll(w.inside);
      r := e.eq(x, y);
      var rechecked := CheckCached(x, y);
      if rechecked.Some? {
        assert rechecked.value == r;
        return;
      }
      ghost var s := Now();
      Cache(x, y, r, w);
      GrowsTrans(old(Now()), s, Now());
    }

    /** The order on DIEs. For two types it first compares them, which sees to it that both have classes. */
    method Less(p: Position, q: Position, w: Work) returns (r: bool)
      requires Valid()
      modifies this
      ensures Valid() && Grows(old(Now()), Now())
      ensures Decided(e, classOf, p, q) && r == Before(e, classOf, p, q)
    {
      if p == End {
        return false;
      }
      if q == End {
        return true;
      }
      if !(p.TypeDie? && q.TypeDie?) {
        if p.TypeDie? {
          return true;
        }
        if q.TypeDie? {
          return false;
        }
        return p.offset < q.offset;
      }
      var equal := Equal(p.offset, q.offset, w);
      if equal {
        return false;
      }
      EntriesInRange(e, Now(), p.offset, q.offset);
      var i := classOf[q.offset];
      while i != |classes|
        invariant classOf[q.offset] <= i <= |classes|
        invariant classOf[q.offset] <= classOf[p.offset] ==> i <= classOf[p.offset]
      {
        if i == classOf[p.offset] {
          return false;
        }
        i := i + 1;
      }
      return true;
    }

    /** Caches a positive result by putting both types in one class, and a negative one by seeing to it
        that both have classes: which had none is known from before the first search. */
    method Cache(x: Offset, y: Offset, equal: bool, w: Work)
      requires Valid() && x != y && equal == e.eq(x, y) && (x !in classOf || y !in classOf)
      modifies this
      ensures Valid() && Grows(old(Now()), Now())
      ensures x in classOf && y in classOf
      decreases w, 3
    {
      hide CacheInv, Grows;
      var xHad, yHad := x in classOf, y in classOf;
      GrowsSelf(Now());
      if equal && yHad {
        EqualBelongs(e, Now(), y, x);
        AddTo(x, classOf[y]);
      } else if equal && xHad {
        EqualBelongs(e, Now(), x, y);
        AddTo(y, classOf[x]);
      } else if equal {
        var k := Install(x, w, false);
        ghost var s := Now();
        EqualBelongs(e, s, x, y);
        if y !in classOf {
          AddTo(y, k);
          GrowsTrans(old(Now()), s, Now());
        }
      } else {
        if !yHad {
          var k := Install(y, w, false);
        }
        ghost var s := Now();
        if !xHad {
          var k := Install(x, w, true);
          GrowsTrans(old(Now()), s, Now());
        }
        assert x in classOf && y in classOf by { KeepsEntries(s, Now()); KeepsEntries(old(Now()), Now()); }
      }
    }
  }

  lemma IsInstalled(e: Equality, s: State, o: Offset, k: nat, classes: seq<set<Offset>>)
    requires k <= |s.classes|
    requires var before := if k < |s.classes| then AddToClass(s, o, k) else AppendClass(s, e.code(o), {});
             classes == before.classes[k := before.classes[k] + {o}]
    ensures classes == Installed(e, s, o, k).classes
  {
    assert {} + {o} == {o};
  }

  lemma KeepsEntries(s: State, t: State)
    requires Grows(s, t)
    ensures forall o :: o in s.classOf ==> o in t.classOf
  {
  }

  /** An iterator position: the end, a type DIE or another DIE. */
  datatype Position = End | TypeDie(offset: Offset) | OtherDie(offset: Offset)

  /** The order decides this pair: a type needs an entry to be ordered against an unequal type. */
  ghost predicate Decided(e: Equality, classOf: map<Offset, nat>, p: Position, q: Position) {
    p.TypeDie? && q.TypeDie? && !e.eq(p.offset, q.offset) ==> p.offset in classOf && q.offset in classOf
  }

  /** Types come first, in the order of their classes; then other DIEs by offset; then the end. */
  ghost predicate Before(e: Equality, classOf: map<Offset, nat>, p: Position, q: Position)
    requires Decided(e, classOf, p, q)
  {
    match (p, q)
    case (End, _) => false
    case (_, End) => true
    case (TypeDie(x), TypeDie(y)) => !e.eq(x, y) && classOf[x] < classOf[y]
    case (TypeDie(_), OtherDie(_)) => true
    case (OtherDie(_), TypeDie(_)) => false
    case (OtherDie(x), OtherDie(y)) => x < y
  }

  method Representative(s: set<Offset>) returns (o: Offset)
    requires s != {}
    ensures o in s
  {
    o :| o in s;
  }

  lemma EntriesInRange(e: Equality, s: State, x: Offset, y: Offset)
    requires e.Valid() && CacheInv(e, s) && !e.eq(x, y)
    ensures var m := s.classOf;
            x in m && y in m ==> m[x] < |s.classes| && m[y] < |s.classes| && m[x] != m[y]
  {
  }

  lemma CandidateIsClass(e: Equality, s: State, c: Option<nat>, i: nat)
    requires CacheInv(e, s) && i < |s.Candidates(c)|
    ensures s.Candidates(c)[i] < |s.classes| && s.classes[s.Candidates(c)[i]] != {}
  {
  }

  lemma StaysMember(e: Equality, s: State, t: State, k: nat, o: Offset)
    requires CacheInv(e, t) && Grows(s, t) && k < |s.classes| && o in s.classes[k]
    ensures k < |t.classes| && o in t.classes[k] && o in t.classOf && t.classOf[o] == k
  {
    assert s.classes[k] <= t.classes[k];
  }

  lemma EqualBelongs(e: Equality, s: State, p: Offset, o: Offset)
    requires e.Valid() && CacheInv(e, s) && p in s.classOf && (e.eq(p, o) || e.eq(o, p))
    ensures s.classOf[p] < |s.classes| && Belongs(e, s, o, s.classOf[p])
  {
  }

  /** An offset that has a class belongs there and is a member. */
  lemma HasItsClass(e: Equality, s: State, o: Offset, k: nat)
    requires e.Valid() && CacheInv(e, s) && o in s.classOf && Belongs(e, s, o, k)
    ensures k < |s.classes| && k == s.classOf[o] && s.classes[k] + {o} == s.classes[k]
  {
  }

  /** None of the first n candidates for o has a member that equals it. */
  ghost predicate Ruled(e: Equality, s: State, o: Offset, n: nat) {
    n <= |s.Candidates(e.code(o))|
    && forall j, p :: 0 <= j < n && p in s.classOf && s.classOf[p] == s.Candidates(e.code(o))[j] ==> !e.eq(p, o)
  }

  lemma RuleOut(e: Equality, s: State, o: Offset, i: nat, rep: Offset)
    requires e.Valid() && CacheInv(e, s) && Ruled(e, s, o, i) && i < |s.Candidates(e.code(o))|
    requires rep in s.classOf && s.classOf[rep] == s.Candidates(e.code(o))[i] && !e.eq(rep, o)
    ensures Ruled(e, s, o, i + 1)
  {
    forall p | p in s.classOf && s.classOf[p] == s.Candidates(e.code(o))[i] ensures !e.eq(p, o) {
      assert e.eq(rep, p);
    }
  }

  /** Candidates keep their places, and new members equal the old ones. */
  lemma StaysRuled(e: Equality, s: State, t: State, o: Offset, n: nat)
    requires e.Valid() && CacheInv(e, s) && CacheInv(e, t) && Grows(s, t) && Ruled(e, s, o, n)
    ensures Ruled(e, t, o, n) && |s.Candidates(e.code(o))| <= |t.Candidates(e.code(o))|
    ensures forall j :: 0 <= j < |s.Candidates(e.code(o))| ==> t.Candidates(e.code(o))[j] == s.Candidates(e.code(o))[j]
  {
    hide CacheInv;
    var c := e.code(o);
    assert forall j :: 0 <= j < |s.Candidates(c)| ==> t.Candidates(c)[j] == s.Candidates(c)[j];
    forall j, p | 0 <= j < n && p in t.classOf && t.classOf[p] == t.Candidates(c)[j] ensures !e.eq(p, o) {
      CandidateIsClass(e, s, c, j);
      NewMemberUnequal(e, s, t, o, s.Candidates(c)[j], p);
    }
  }

  lemma NewMemberUnequal(e: Equality, s: State, t: State, o: Offset, k: nat, p: Offset)
    requires e.Valid() && CacheInv(e, s) && CacheInv(e, t) && Grows(s, t) && k < |s.classes| && s.classes[k] != {}
    requires forall q :: q in s.classOf && s.classOf[q] == k ==> !e.eq(q, o)
    requires p in t.classOf && t.classOf[p] == k
    ensures !e.eq(p, o)
  {
    var q :| q in s.classes[k];
    assert q in s.classOf && e.eq(q, p);
  }

  /** An equal type would have the same code, and so be in one of the classes searched. */
  lemma NotInAnyClass(e: Equality, s: State, o: Offset)
    requires e.Valid() && CacheInv(e, s) && Ruled(e, s, o, |s.Candidates(e.code(o))|)
    ensures forall p :: p in s.classOf ==> !e.eq(p, o)
  {
    forall p | p in s.classOf ensures !e.eq(p, o) {
      if e.code(p) == e.code(o) {
        var j :| 0 <= j < |s.Candidates(e.code(o))| && s.Candidates(e.code(o))[j] == s.classOf[p];
      }
    }
  }

  // ---- The order is a strict weak order, and never changes its mind ----

  /** Incomparable positions are the same non-type position or equal types. */
  lemma IncomparableIffEqual(e: Equality, s: State, p: Position, q: Position)
    requires e.Valid() && CacheInv(e, s) && Decided(e, s.classOf, p, q)
    ensures Decided(e, s.classOf, q, p)
    ensures !(Before(e, s.classOf, p, q) && Before(e, s.classOf, q, p))
    ensures !Before(e, s.classOf, p, q) && !Before(e, s.classOf, q, p)
            <==> p == q || (p.TypeDie? && q.TypeDie? && e.eq(p.offset, q.offset))
  {
    if p.TypeDie? && q.TypeDie? && !e.eq(p.offset, q.offset) {
      EntriesInRange(e, s, p.offset, q.offset);
    }
  }

  /** Verdicts given at whatever times chain up: if p was found before q and q before r, then once
      both verdicts are in, p is before r. Incomparability chains up likewise. */
  lemma StrictWeakOrder(e: Equality, s: State, p: Position, q: Position, r: Position)
    requires e.Valid() && CacheInv(e, s) && Decided(e, s.classOf, p, q) && Decided(e, s.classOf, q, r)
    ensures !Before(e, s.classOf, p, p)
    ensures Before(e, s.classOf, p, q) && Before(e, s.classOf, q, r) ==>
              Decided(e, s.classOf, p, r) && Before(e, s.classOf, p, r)
    ensures Decided(e, s.classOf, p, r) && !Before(e, s.classOf, p, q) && !Before(e, s.classOf, q, p)
            && !Before(e, s.classOf, q, r) && !Before(e, s.classOf, r, q)
            ==> !Before(e, s.classOf, p, r) && !Before(e, s.classOf, r, p)
  {
    IncomparableIffEqual(e, s, p, q);
    IncomparableIffEqual(e, s, q, r);
    if Decided(e, s.classOf, p, r) {
      IncomparableIffEqual(e, s, p, r);
    }
  }

  /** A verdict once given stands in every later state. */
  lemma VerdictStands(e: Equality, s: State, t: State, p: Position, q: Position)
    requires Grows(s, t) && Decided(e, s.classOf, p, q)
    ensures Decided(e, t.classOf, p, q)
    ensures Before(e, t.classOf, p, q) == Before(e, s.classOf, p, q)
  {
  }
}
