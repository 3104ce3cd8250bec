/** Summary codes of types: a word that a type's definition is folded into, by containment. Inside a structure,
    subprogram or array, a pointer contributes its abstract name only. */
module Summary {
  import opened Wrappers
  import opened Acyclic

  type Id = nat

  type Ref = Option<Id>

  /** typ is the type; a member without an offset has no apparent location. */
  datatype Member = Member(declaration: bool, offset: Option<nat>, typ: Id)

  /** A type entry. No reference is the void type. */
  datatype Die =
    | Base(name: string, tokens: seq<nat>)
    | Enumeration(name: string, tokens: seq<nat>, base: Ref)
    | Subrange(tokens: seq<nat>, prefix: string, base: Ref)
    | Subprogram(ret: Ref, params: seq<Ref>, variadic: bool)
    | AddressHolding(tag: nat, size: nat, target: Ref)
    | WithMembers(name: string, declaration: bool, definition: Ref, members: seq<Member>)
    | ArrayOf(elem: Ref, count: Option<nat>)
    | StringOf(len: nat)
    | Unspecified
    | Chain(target: Ref)

  type Graph = map<Id, Die>

  const TAG_string_type := 0x12
  const TAG_base_type := 0x24

  // ---- The type graph ----

  function Listed(r: Ref): seq<Id> { if r.None? then [] else [r.value] }

  function AllListed(rs: seq<Ref>): seq<Id> {
    if rs == [] then [] else Listed(rs[0]) + AllListed(rs[1..])
  }

  function MemberTypes(ms: seq<Member>): (r: seq<Id>)
    ensures |r| == |ms| && forall k :: 0 <= k < |ms| ==> r[k] == ms[k].typ
  {
    seq(|ms|, k requires 0 <= k < |ms| => ms[k].typ)
  }

  /** All the types an entry refers to; a declaration, to its definition. */
  function Targets(d: Die): seq<Id> {
    match d
    case Enumeration(_, _, base) => Listed(base)
    case Subrange(_, _, base) => Listed(base)
    case Subprogram(ret, params, _) => Listed(ret) + AllListed(params)
    case AddressHolding(_, _, target) => Listed(target)
    case WithMembers(_, declaration, definition, members) => if declaration then Listed(definition)
      else MemberTypes(members)
    case ArrayOf(elem, _) => Listed(elem)
    case Chain(target) => Listed(target)
    case _ => []
  }

  function TypeGraph(g: Graph): Succs<Id> { map t | t in g :: Targets(g[t]) }

  /** The same without those of types with names of their own, at which abstract names stop. */
  function NameTargets(d: Die): seq<Id> {
    if d.WithMembers? || d.Enumeration? then [] else Targets(d)
  }

  function NameGraph(g: Graph): Succs<Id> { map t | t in g :: NameTargets(g[t]) }

  ghost predicate IsGraph(g: Graph) { IsClosed(TypeGraph(g)) }

  ghost predicate HasNames(g: Graph) { IsGraph(g) && NoCycle(NameGraph(g)) }

  lemma {:induction false} ListedIn(rs: seq<Ref>, j: nat)
    requires j < |rs| && rs[j].Some?
    ensures rs[j].value in AllListed(rs)
  {
    if j > 0 { ListedIn(rs[1..], j - 1); }
  }

  lemma TargetsIn(g: Graph, t: Id)
    requires HasNames(g) && t in g
    ensures forall v :: v in Targets(g[t]) ==> v in g
  {
    forall v | v in Targets(g[t]) ensures v in g {
      assert v in TypeGraph(g)[t];
      assert v in TypeGraph(g);
    }
  }

  /** An edge of the graph by which abstract names are found. */
  lemma NameEdge(g: Graph, t: Id, v: Id)
    requires HasNames(g) && t in g && v in NameTargets(g[t])
    ensures v in g && Rank(NameGraph(g), v) < Rank(NameGraph(g), t)
  {
    assert v in TypeGraph(g)[t];
    assert HasEdge(NameGraph(g), t, v);
    RankDrops(NameGraph(g), t, v);
  }

  /** The one type that a typedef, pointer, array or subrange is made from. */
  function Under(d: Die): Ref {
    match d
    case Chain(target) => target
    case AddressHolding(_, _, target) => target
    case ArrayOf(elem, _) => elem
    case Subrange(_, _, base) => base
    case _ => None
  }

  ghost function NameRank(g: Graph, r: Ref): nat { if r.Some? then Rank(NameGraph(g), r.value) + 1 else 0 }

  lemma UnderEdge(g: Graph, t: Id)
    requires HasNames(g) && t in g
    ensures var n := Under(g[t]); (n.Some? ==> n.value in g) && NameRank(g, n) < NameRank(g, Some(t))
  {
    hide HasNames, Rank;
    if Under(g[t]).Some? { NameEdge(g, t, Under(g[t]).value); }
  }

  /** A reference to a type of the graph, or to void. */
  predicate IsRef(g: Graph, r: Ref) { r.Some? ==> r.value in g }

  /** Follows typedefs and qualifiers. */
  function Concrete(g: Graph, r: Ref): (c: Ref)
    requires HasNames(g) && IsRef(g, r)
    ensures IsRef(g, c) && (c.Some? ==> !g[c.value].Chain?)
    decreases NameRank(g, r)
  {
    hide HasNames, NameRank;
    if r.None? || !g[r.value].Chain? then r else (UnderEdge(g, r.value); Concrete(g, Under(g[r.value])))
  }

  /** The type is, under typedefs and qualifiers, a pointer or reference. */
  predicate HoldsAddress(g: Graph, r: Ref)
    requires HasNames(g) && IsRef(g, r)
  {
    var c := Concrete(g, r);
    c.Some? && g[c.value].AddressHolding?
  }

  /** The concrete type under all the arrays. */
  function UltimateElement(g: Graph, r: Ref): (c: Ref)
    requires HasNames(g) && IsRef(g, r)
    ensures IsRef(g, c) && (c.Some? ==> !g[c.value].Chain? && !g[c.value].ArrayOf?)
    decreases NameRank(g, r)
  {
    hide HasNames, NameRank;
    if r.None? || !(g[r.value].Chain? || g[r.value].ArrayOf?) then r
    else (UnderEdge(g, r.value); UltimateElement(g, Under(g[r.value])))
  }

  /** The product of the array counts, if all are known. */
  function UltimateCount(g: Graph, r: Ref): Option<nat>
    requires HasNames(g) && IsRef(g, r)
    decreases NameRank(g, r)
  {
    hide HasNames, NameRank;
    if r.None? then Some(1)
    else
      var d := g[r.value];
      if !(d.Chain? || d.ArrayOf?) then Some(1)
      else
        UnderEdge(g, r.value);
        var inner := UltimateCount(g, Under(d));
        if d.Chain? || inner.None? then inner else if d.count.None? then None else Some(inner.value * d.count.value)
  }

  /** What the pointers and references end at, with a declaration replaced by its definition. */
  function UltimateReached(g: Graph, r: Ref): (c: Ref)
    requires HasNames(g) && IsRef(g, r)
    decreases NameRank(g, r)
  {
    hide HasNames, NameRank;
    if r.None? then None
    else
      var d := g[r.value];
      if d.Chain? || d.AddressHolding? then (UnderEdge(g, r.value); UltimateReached(g, Under(d)))
      else if d.WithMembers? && d.declaration && d.definition.Some? then d.definition
      else r
  }

  // ---- Abstract names ----

  function Decimal(n: nat): string { if n < 10 then [(48 + n) as char] else Decimal(n / 10) + [(48 + n % 10) as char] }

  function TagName(tag: nat): string { if tag == 0x0f then "__PTR_" else if tag == 0x10 then "__REF_" else "__RR_" }

  /** Abstract names see nothing of a type with members but its own name. */
  function Name(g: Graph, r: Ref): string
    requires HasNames(g) && IsRef(g, r)
    decreases NameRank(g, r), 0
  {
    hide HasNames, NameRank;
    if r.None? then "void"
    else
      UnderEdge(g, r.value);
      var d := g[r.value];
      if d.Base? || d.Enumeration? || d.WithMembers? then d.name
      else if d.Unspecified? then "void"
      else if d.StringOf? then "__STR" + Decimal(d.len) + "__1"
      else if d.Subprogram? then SubprogramName(g, r.value)
      else Prefix(d) + Name(g, Under(d))
  }

  function Prefix(d: Die): string {
    match d
    case Subrange(_, prefix, _) => prefix
    case AddressHolding(tag, _, _) => TagName(tag)
    case ArrayOf(_, count) => "__ARR" + (if count.Some? then Decimal(count.value) else "") + "_"
    case _ => ""
  }

  lemma SubprogramEdges(g: Graph, t: Id)
    requires HasNames(g) && t in g && g[t].Subprogram?
    ensures IsRef(g, g[t].ret) && NameRank(g, g[t].ret) < NameRank(g, Some(t))
    ensures forall j :: 0 <= j < |g[t].params| ==>
              IsRef(g, g[t].params[j]) && NameRank(g, g[t].params[j]) < NameRank(g, Some(t))
  {
    hide HasNames, Rank;
    if g[t].ret.Some? { NameEdge(g, t, g[t].ret.value); }
    forall j | 0 <= j < |g[t].params|
      ensures IsRef(g, g[t].params[j]) && NameRank(g, g[t].params[j]) < NameRank(g, Some(t))
    {
      if g[t].params[j].Some? {
        ListedIn(g[t].params, j);
        NameEdge(g, t, g[t].params[j].value);
      }
    }
  }

  function SubprogramName(g: Graph, t: Id): string
    requires HasNames(g) && t in g && g[t].Subprogram?
    decreases NameRank(g, Some(t)), 0, 1
  {
    hide HasNames, NameRank;
    SubprogramEdges(g, t);
    "__FUN_FROM_" + ParamNames(g, t, 0) + (if g[t].variadic then "__VA_" else "") + "__FUN_TO_" + Name(g, g[t].ret)
  }

  function ParamNames(g: Graph, t: Id, k: nat): string
    requires HasNames(g) && t in g && g[t].Subprogram? && k <= |g[t].params|
    decreases NameRank(g, Some(t)), 0, 0, |g[t].params| - k
  {
    hide HasNames, NameRank;
    if k == |g[t].params| then ""
    else (SubprogramEdges(g, t); "__ARG" + Decimal(k) + "_" + Name(g, g[t].params[k]) + ParamNames(g, t, k + 1))
  }

  // ---- What a summary is made from ----

  /** Those of the types that are not pointers or references. */
  ghost function Uncut(g: Graph, ids: seq<Id>): (r: seq<Id>)
    requires HasNames(g) && forall v :: v in ids ==> v in g
    ensures forall v :: v in r <==> v in ids && !HoldsAddress(g, Some(v))
  {
    hide HasNames, HoldsAddress;
    if ids == [] then []
    else (if HoldsAddress(g, Some(ids[0])) then [] else [ids[0]]) + Uncut(g, ids[1..])
  }

  /** Members that are declarations or have no offset do not count. */
  predicate Counts(m: Member) { !m.declaration && m.offset.Some? }

  function CountedTypes(ms: seq<Member>): (r: seq<Id>)
    ensures forall k :: 0 <= k < |ms| && Counts(ms[k]) ==> ms[k].typ in r
    ensures forall v :: v in r ==> exists k :: 0 <= k < |ms| && ms[k].typ == v
  {
    if ms == [] then [] else CountedTypes(ms[..|ms| - 1]) + if Counts(ms[|ms| - 1]) then [ms[|ms| - 1].typ] else []
  }

  /** The types whose summaries go into that of a type. */
  ghost function Parts(g: Graph, t: Id): (r: seq<Id>)
    requires HasNames(g) && t in g
    ensures forall v :: v in r ==> v in g && v in Targets(g[t])
  {
    TargetsIn(g, t);
    hide HasNames, HoldsAddress;
    match g[t]
    case Subprogram(ret, params, _) => Uncut(g, Targets(g[t]))
    case WithMembers(_, declaration, _, members) =>
      if declaration then Targets(g[t]) else Uncut(g, CountedTypes(members))
    case ArrayOf(_, _) => if IsAddress(g, UltimateElement(g, Some(t))) then [] else Targets(g[t])
    case _ => Targets(g[t])
  }

  predicate IsAddress(g: Graph, r: Ref) { r.Some? && r.value in g && g[r.value].AddressHolding? }

  ghost function PartGraph(g: Graph): Succs<Id>
    requires HasNames(g)
  {
    map t | t in g :: Parts(g, t)
  }

  ghost predicate Terminates(g: Graph) { HasNames(g) && NoCycle(PartGraph(g)) }

  ghost function PartRank(g: Graph, r: Ref): nat
    requires HasNames(g)
  {
    if r.Some? then Rank(PartGraph(g), r.value) + 1 else 0
  }

  lemma PartDrops(g: Graph, t: Id, v: Id)
    requires Terminates(g) && t in g && v in Parts(g, t)
    ensures v in g && PartRank(g, Some(v)) < PartRank(g, Some(t))
  {
    assert HasEdge(PartGraph(g), t, v);
    RankDrops(PartGraph(g), t, v);
  }

  /** A type that a part leads to under typedefs and arrays has a lower rank. */
  lemma {:induction false} ConcreteDrops(g: Graph, t: Id)
    requires Terminates(g) && t in g && g[t].Chain?
    ensures PartRank(g, Concrete(g, Some(t))) < PartRank(g, Some(t))
    decreases NameRank(g, Some(t))
  {
    hide Terminates, NameRank, PartRank, HasNames;
    HasNamesOf(g);
    UnderEdge(g, t);
    var n := g[t].target;
    if n.Some? {
      assert n.value in Parts(g, t);
      PartDrops(g, t, n.value);
      if g[n.value].Chain? { ConcreteDrops(g, n.value); }
    } else {
      NoPartRank(g, t);
    }
  }

  lemma HasNamesOf(g: Graph)
    requires Terminates(g)
    ensures HasNames(g)
  {
  }

  lemma NoPartRank(g: Graph, t: Id)
    requires Terminates(g)
    ensures PartRank(g, None) < PartRank(g, Some(t))
  {
  }

  /** So has the ultimate element type of an array, if it is not a pointer. */
  lemma {:induction false} ElementDrops(g: Graph, t: Id)
    requires Terminates(g) && t in g && (g[t].Chain? || g[t].ArrayOf?) && !IsAddress(g, UltimateElement(g, Some(t)))
    ensures PartRank(g, UltimateElement(g, Some(t))) < PartRank(g, Some(t))
    decreases NameRank(g, Some(t))
  {
    hide Terminates, NameRank, PartRank, HasNames;
    HasNamesOf(g);
    UnderEdge(g, t);
    var n := Under(g[t]);
    if n.Some? {
      assert n.value in Parts(g, t);
      PartDrops(g, t, n.value);
      if g[n.value].Chain? || g[n.value].ArrayOf? { ElementDrops(g, n.value); }
    } else {
      NoPartRank(g, t);
    }
  }

  lemma RefDrops(g: Graph, t: Id, r: Ref)
    requires Terminates(g) && t in g && (r.Some? ==> r.value in Parts(g, t))
    ensures IsRef(g, r) && PartRank(g, r) < PartRank(g, Some(t))
  {
    if r.Some? { PartDrops(g, t, r.value); }
  }

  /** The parameters and the result of a subprogram type, and the counted members of a structure, are parts
      unless they are pointers. */
  lemma ParamDrops(g: Graph, t: Id, r: Ref)
    requires Terminates(g) && t in g && g[t].Subprogram? && (r == g[t].ret || r in g[t].params)
    ensures IsRef(g, r) && (!HoldsAddress(g, r) ==> PartRank(g, r) < PartRank(g, Some(t)))
    ensures !HoldsAddress(g, r) && r.Some? ==> r.value in Parts(g, t)
  {
    hide Terminates, PartRank, HasNames, HoldsAddress;
    HasNamesOf(g);
    TargetsIn(g, t);
    if r.Some? {
      if r in g[t].params {
        var j :| 0 <= j < |g[t].params| && g[t].params[j] == r;
        ListedIn(g[t].params, j);
      }
      assert r.value in Targets(g[t]);
      if !HoldsAddress(g, r) { PartDrops(g, t, r.value); }
    } else {
      NoPartRank(g, t);
    }
  }

  lemma MemberDrops(g: Graph, t: Id, k: nat)
    requires Terminates(g) && t in g && g[t].WithMembers? && !g[t].declaration && k < |g[t].members|
    requires Counts(g[t].members[k])
    ensures var r := Some(g[t].members[k].typ);
            IsRef(g, r) && (!HoldsAddress(g, r) ==> PartRank(g, r) < PartRank(g, Some(t)))
    ensures !HoldsAddress(g, Some(g[t].members[k].typ)) ==> g[t].members[k].typ in Parts(g, t)
  {
    hide Terminates, PartRank, HasNames, HoldsAddress;
    HasNamesOf(g);
    TargetsIn(g, t);
    var v := g[t].members[k].typ;
    assert MemberTypes(g[t].members)[k] == v;
    assert v in Targets(g[t]);
    if !HoldsAddress(g, Some(v)) {
      assert v in CountedTypes(g[t].members);
      assert v in Parts(g, t);
      PartDrops(g, t, v);
    }
  }

  // ---- The word ----

  /** How a token, with the check against zero, goes into the word; and that check alone. */
  datatype Hash = Hash(mix: (nat, nat) -> nat, zeroCheck: nat -> nat)

  type Word = Option<nat>

  function WithToken(h: Hash, w: Word, token: nat): Word { if w.None? then None else Some(h.mix(w.value, token)) }

  function WithTokens(h: Hash, w: Word, tokens: seq<nat>): Word {
    if tokens == [] then w else WithToken(h, WithTokens(h, w, tokens[..|tokens| - 1]), tokens[|tokens| - 1])
  }

  function Chars(s: string): seq<nat> { seq(|s|, k requires 0 <= k < |s| => s[k] as nat) }

  function WithString(h: Hash, w: Word, s: string): Word {
    var r := WithTokens(h, w, Chars(s));
    if r.None? then None else Some(h.zeroCheck(r.value))
  }

  function WithWord(h: Hash, w: Word, x: Word): Word { if x.None? then None else WithToken(h, w, x.value) }

  /** The word that is built up. Once absent, it stays so. */
  class SummaryWord {
    var val: Word

    constructor ()
      ensures val == Some(0)
    {
      val := Some(0);
    }

    method PutToken(h: Hash, token: nat)
      modifies this
      ensures val == WithToken(h, old(val), token)
    {
      if val.Some? {
        val := Some(h.mix(val.value, token));
      }
    }

    method PutTokens(h: Hash, tokens: seq<nat>)
      modifies this
      ensures val == WithTokens(h, old(val), tokens)
    {
      var k := 0;
      while k < |tokens|
        invariant 0 <= k <= |tokens| && val == WithTokens(h, old(val), tokens[..k])
      {
        assert tokens[..k + 1][..k] == tokens[..k];
        PutToken(h, tokens[k]);
        k := k + 1;
      }
      assert tokens[..k] == tokens;
    }

    method PutString(h: Hash, s: string)
      modifies this
      ensures val == WithString(h, old(val), s)
    {
      PutTokens(h, Chars(s));
      if val.Some? {
        val := Some(h.zeroCheck(val.value));
      }
    }

    method PutWord(h: Hash, x: Word)
      modifies this
      ensures val == WithWord(h, old(val), x)
    {
      if x.None? {
        val := None;
      } else {
        PutToken(h, x.value);
      }
    }
  }

  // ---- Summaries ----

  function SummaryRef(h: Hash, g: Graph, r: Ref): Word
    requires Terminates(g) && IsRef(g, r)
    decreases PartRank(g, r), 3
  {
    if r.None? then Some(0) else SummaryOf(h, g, r.value)
  }

  /** A pointer inside another type contributes its abstract name, any other type its summary. */
  function Incorporate(h: Hash, g: Graph, w: Word, r: Ref, ghost t: Id): Word
    requires Terminates(g) && t in g && IsRef(g, r) && (!HoldsAddress(g, r) ==> PartRank(g, r) < PartRank(g, Some(t)))
    decreases PartRank(g, Some(t)), 0
  {
    hide Terminates, PartRank, HasNames;
    HasNamesOf(g);
    if HoldsAddress(g, r) then WithString(h, w, Name(g, Concrete(g, r))) else WithWord(h, w, SummaryRef(h, g, r))
  }

  function WithParams(h: Hash, g: Graph, w: Word, t: Id, k: nat): Word
    requires Terminates(g) && t in g && g[t].Subprogram? && k <= |g[t].params|
    decreases PartRank(g, Some(t)), 1, k
  {
    hide Terminates, PartRank, HasNames;
    HasNamesOf(g);
    if k == 0 then w
    else (ParamDrops(g, t, g[t].params[k - 1]); Incorporate(h, g, WithParams(h, g, w, t, k - 1), g[t].params[k - 1], t))
  }

  function WithMembersUpTo(h: Hash, g: Graph, w: Word, t: Id, k: nat): Word
    requires Terminates(g) && t in g && g[t].WithMembers? && !g[t].declaration && k <= |g[t].members|
    decreases PartRank(g, Some(t)), 1, k
  {
    hide Terminates, PartRank, HasNames;
    HasNamesOf(g);
    if k == 0 then w
    else
      var before := WithMembersUpTo(h, g, w, t, k - 1);
      var m := g[t].members[k - 1];
      if !Counts(m) then before
      else (MemberDrops(g, t, k - 1); Incorporate(h, g, WithToken(h, before, m.offset.value), Some(m.typ), t))
  }

  function SummaryOf(h: Hash, g: Graph, t: Id): Word
    requires Terminates(g) && t in g
    decreases PartRank(g, Some(t)), 2
  {
    hide Terminates, PartRank, HasNames;
    HasNamesOf(g);
    match g[t]
    case Base(_, tokens) => WithTokens(h, Some(0), [TAG_base_type] + tokens)
    case Enumeration(name, tokens, base) =>
      var w := WithTokens(h, WithString(h, Some(0), name), tokens);
      RefDrops(g, t, base);
      if base.None? then w else WithWord(h, w, SummaryRef(h, g, base))
    case Subrange(tokens, _, base) =>
      RefDrops(g, t, base);
      WithTokens(h, if base.None? then Some(0) else WithWord(h, Some(0), SummaryRef(h, g, base)), tokens)
    case Subprogram(ret, params, variadic) =>
      ParamDrops(g, t, ret);
      var w := WithParams(h, g, WithString(h, Incorporate(h, g, Some(0), ret, t), "()"), t, |params|);
      if variadic then WithString(h, w, "...") else w
    case AddressHolding(tag, size, target) =>
      RefDrops(g, t, target);
      if IsOpaque(g, UltimateReached(g, Some(t))) then None
      else WithWord(h, WithTokens(h, Some(0), [tag, size, 0]), SummaryRef(h, g, target))
    case WithMembers(name, declaration, definition, members) =>
      if declaration then
        RefDrops(g, t, definition);
        if definition.None? then None else SummaryOf(h, g, definition.value)
      else WithMembersUpTo(h, g, WithString(h, Some(0), name), t, |members|)
    case ArrayOf(_, _) =>
      var el, count := UltimateElement(g, Some(t)), UltimateCount(g, Some(t));
      assert !IsAddress(g, el) ==> PartRank(g, el) < PartRank(g, Some(t))
        by { if !IsAddress(g, el) { ElementDrops(g, t); } }
      var w := if el.None? then None
               else if IsAddress(g, el) then WithString(h, Some(0), Name(g, el))
               else WithWord(h, Some(0), SummaryRef(h, g, el));
      WithToken(h, w, if count.Some? then count.value else 0)
    case StringOf(len) => WithTokens(h, Some(0), [TAG_string_type, len])
    case Unspecified => None
    case Chain(_) =>
      ConcreteDrops(g, t);
      SummaryRef(h, g, Concrete(g, Some(t)))
  }

  /** A declaration that has no definition. */
  predicate IsOpaque(g: Graph, r: Ref) { r.Some? && r.value in g && g[r.value].WithMembers? && g[r.value].declaration }

  /** Computes the summary of a type. */
  method ContainmentSummary(h: Hash, g: Graph, r: Ref) returns (code: Word)
    requires Terminates(g) && IsRef(g, r)
    ensures code == SummaryRef(h, g, r)
    decreases PartRank(g, r), 3
  {
    hide Terminates, PartRank, HasNames, HoldsAddress, UltimateElement, UltimateCount, UltimateReached;
    HasNamesOf(g);
    if r.None? {
      return Some(0);
    }
    var t := r.value;
    var concrete := Concrete(g, r);
    if concrete != r {
      ConcreteDrops(g, t);
      code := ContainmentSummary(h, g, concrete);
      return;
    }
    var d := g[t];
    if d.WithMembers? && d.declaration {
      RefDrops(g, t, d.definition);
      if d.definition.None? {
        return None;
      }
      code := ContainmentSummary(h, g, d.definition);
      return;
    }
    if d.Unspecified? || (d.AddressHolding? && IsOpaque(g, UltimateReached(g, r))) {
      return None;
    }
    code := SummariseDie(h, g, t);
  }

  method SummariseDie(h: Hash, g: Graph, t: Id) returns (code: Word)
    requires Terminates(g) && t in g && !g[t].Chain? && !g[t].Unspecified?
    requires g[t].WithMembers? ==> !g[t].declaration
    requires HasNames(g) && (g[t].AddressHolding? ==> !IsOpaque(g, UltimateReached(g, Some(t))))
    ensures code == SummaryOf(h, g, t)
    decreases PartRank(g, Some(t)), 2
  {
    hide Terminates, PartRank, HasNames, HoldsAddress, UltimateElement, UltimateCount, UltimateReached;
    var word := new SummaryWord();
    match g[t] {
      case Base(_, tokens) =>
        word.PutTokens(h, [TAG_base_type] + tokens);
      case Enumeration(name, tokens, base) =>
        word.PutString(h, name);
        word.PutTokens(h, tokens);
        if base.Some? {
          RefDrops(g, t, base);
          var c := ContainmentSummary(h, g, base);
          word.PutWord(h, c);
        }
      case Subrange(tokens, _, base) =>
        if base.Some? {
          RefDrops(g, t, base);
          var c := ContainmentSummary(h, g, base);
          word.PutWord(h, c);
        }
        word.PutTokens(h, tokens);
      case Subprogram(ret, _, variadic) =>
        ParamDrops(g, t, ret);
        IncorporateType(h, g, word, ret, t);
        word.PutString(h, "()");
        IncorporateParams(h, g, word, t);
        if variadic {
          word.PutString(h, "...");
        }
      case AddressHolding(tag, size, target) =>
        word.PutTokens(h, [tag, size, 0]);
        RefDrops(g, t, target);
        var c := ContainmentSummary(h, g, target);
        word.PutWord(h, c);
      case WithMembers(name, _, _, _) =>
        word.PutString(h, name);
        IncorporateMembers(h, g, word, t);
      case ArrayOf(_, _) =>
        var el, count := UltimateElement(g, Some(t)), UltimateCount(g, Some(t));
        if el.None? {
          word.PutWord(h, None);
        } else if IsAddress(g, el) {
          word.PutString(h, Name(g, el));
        } else {
          ElementDrops(g, t);
          var c := ContainmentSummary(h, g, el);
          word.PutWord(h, c);
        }
        word.PutToken(h, if count.Some? then count.value else 0);
      case StringOf(len) =>
        word.PutTokens(h, [TAG_string_type, len]);
    }
    code := word.val;
  }

  method IncorporateType(h: Hash, g: Graph, word: SummaryWord, r: Ref, ghost t: Id)
    requires Terminates(g) && t in g && IsRef(g, r) && HasNames(g)
    requires !HoldsAddress(g, r) ==> PartRank(g, r) < PartRank(g, Some(t))
    modifies word
    ensures word.val == Incorporate(h, g, old(word.val), r, t)
    decreases PartRank(g, Some(t)), 0
  {
    hide Terminates, PartRank, HasNames;
    if HoldsAddress(g, r) {
      word.PutString(h, Name(g, Concrete(g, r)));
    } else {
      var c := ContainmentSummary(h, g, r);
      word.PutWord(h, c);
    }
  }

  method IncorporateParams(h: Hash, g: Graph, word: SummaryWord, t: Id)
    requires Terminates(g) && t in g && HasNames(g) && g[t].Subprogram?
    modifies word
    ensures word.val == WithParams(h, g, old(word.val), t, |g[t].params|)
    decreases PartRank(g, Some(t)), 1
  {
    hide Terminates, PartRank, HasNames, HoldsAddress;
    var k := 0;
    while k < |g[t].params|
      invariant 0 <= k <= |g[t].params| && word.val == WithParams(h, g, old(word.val), t, k)
    {
      ParamDrops(g, t, g[t].params[k]);
      IncorporateType(h, g, word, g[t].params[k], t);
      k := k + 1;
    }
  }

  method IncorporateMembers(h: Hash, g: Graph, word: SummaryWord, t: Id)
    requires Terminates(g) && t in g && HasNames(g) && g[t].WithMembers? && !g[t].declaration
    modifies word
    ensures word.val == WithMembersUpTo(h, g, old(word.val), t, |g[t].members|)
    decreases PartRank(g, Some(t)), 1
  {
    hide Terminates, PartRank, HasNames, HoldsAddress;
    var k := 0;
    while k < |g[t].members|
      invariant 0 <= k <= |g[t].members| && word.val == WithMembersUpTo(h, g, old(word.val), t, k)
    {
      var m := g[t].members[k];
      if Counts(m) {
        MemberDrops(g, t, k);
        word.PutToken(h, m.offset.value);
        IncorporateType(h, g, word, Some(m.typ), t);
      }
      k := k + 1;
    }
  }

  // ---- Replacing types by declarations ----

  /** Some types with members are declarations of the same name instead. */
  ghost predicate Redeclares(g: Graph, n: Graph) {
    && (forall x :: x in g <==> x in n)
    && (forall x :: x in g ==>
        n[x] == g[x] || (g[x].WithMembers? && n[x].WithMembers? && n[x].name == g[x].name && n[x].declaration))
  }

  lemma {:induction false} SameShape(g: Graph, n: Graph, r: Ref)
    requires Redeclares(g, n) && HasNames(g) && HasNames(n) && IsRef(g, r)
    ensures Concrete(n, r) == Concrete(g, r) && HoldsAddress(n, r) == HoldsAddress(g, r)
    ensures UltimateElement(n, r) == UltimateElement(g, r) && UltimateCount(n, r) == UltimateCount(g, r)
    decreases NameRank(g, r)
  {
    hide HasNames, NameRank;
    if r.Some? {
      UnderEdge(g, r.value);
      UnderEdge(n, r.value);
      if g[r.value].Chain? || g[r.value].ArrayOf? { SameShape(g, n, Under(g[r.value])); }
    }
  }

  /** Abstract names stay the same. */
  lemma {:induction false} SameName(g: Graph, n: Graph, r: Ref)
    requires Redeclares(g, n) && HasNames(g) && HasNames(n) && IsRef(g, r)
    ensures Name(n, r) == Name(g, r)
    decreases NameRank(g, r), 0
  {
    hide HasNames, NameRank, Decimal;
    if r.Some? {
      UnderEdge(g, r.value);
      UnderEdge(n, r.value);
      if g[r.value].Subprogram? {
        SubprogramEdges(g, r.value);
        SubprogramEdges(n, r.value);
        SameName(g, n, g[r.value].ret);
        SameParamNames(g, n, r.value, 0);
      } else {
        SameName(g, n, Under(g[r.value]));
      }
    }
  }

  lemma {:induction false} SameParamNames(g: Graph, n: Graph, t: Id, k: nat)
    requires Redeclares(g, n) && HasNames(g) && HasNames(n) && t in g && t in n && g[t].Subprogram? && n[t] == g[t]
    requires k <= |g[t].params|
    ensures ParamNames(n, t, k) == ParamNames(g, t, k)
    decreases NameRank(g, Some(t)), 0, |g[t].params| - k
  {
    hide HasNames, NameRank, Decimal, Redeclares;
    if k < |g[t].params| {
      SubprogramEdges(g, t);
      SubprogramEdges(n, t);
      SameName(g, n, g[t].params[k]);
      SameParamNames(g, n, t, k + 1);
    }
  }

  /** Types that are reached without going through a pointer or reference, and their parts; none of them is
      replaced. */
  ghost predicate IsRegion(g: Graph, n: Graph, region: set<Id>)
    requires HasNames(g)
  {
    && (forall t :: t in region ==> t in g && t in n && n[t] == g[t] && !g[t].AddressHolding?)
    && (forall t, v :: t in region && t in g && v in Parts(g, t) ==> v in region)
  }

  ghost predicate Unaffected(g: Graph, n: Graph, region: set<Id>) {
    Terminates(g) && Terminates(n) && Redeclares(g, n) && HasNames(g) && IsRegion(g, n, region)
  }

  lemma SameRef(g: Graph, n: Graph, region: set<Id>, r: Ref)
    requires Unaffected(g, n, region) && IsRef(g, r)
    ensures HasNames(g) && HasNames(n) && IsRef(n, r)
    ensures HoldsAddress(n, r) == HoldsAddress(g, r) && Concrete(n, r) == Concrete(g, r) && Name(n, r) == Name(g, r)
    ensures Name(n, Concrete(n, r)) == Name(g, Concrete(g, r))
    ensures UltimateElement(n, r) == UltimateElement(g, r) && UltimateCount(n, r) == UltimateCount(g, r)
  {
    hide NoCycle, HoldsAddress, Name, UltimateElement, UltimateCount, Concrete;
    SameShape(g, n, r);
    SameName(g, n, r);
    SameName(g, n, Concrete(g, r));
  }

  lemma InRegion(g: Graph, n: Graph, region: set<Id>, t: Id)
    requires Unaffected(g, n, region) && t in region
    ensures t in g && t in n && n[t] == g[t] && !g[t].AddressHolding? && Terminates(g) && Terminates(n) && HasNames(g)
    ensures HasNames(n)
    ensures forall v :: v in Parts(g, t) ==> v in region
  {
  }

  /** The summary of a type is the same when types that are reached only through pointers and references are
      replaced by declarations. */
  lemma {:induction false} SummaryUnaffected(h: Hash, g: Graph, n: Graph, region: set<Id>, t: Id)
    requires Unaffected(g, n, region) && t in region
    ensures t in g && t in n && Terminates(g) && Terminates(n) && SummaryOf(h, n, t) == SummaryOf(h, g, t)
    decreases if Terminates(g) then PartRank(g, Some(t)) else 0, 3
  {
    hide Unaffected, Terminates, PartRank, HasNames, HoldsAddress, UltimateElement, UltimateCount, UltimateReached;
    hide Concrete, Uncut;
    InRegion(g, n, region, t);
    SameRef(g, n, region, Some(t));
    match g[t]
    case Base(_, _) =>
    case StringOf(_) =>
    case Unspecified =>
    case Enumeration(_, _, base) => PartUnaffected(h, g, n, region, t, base);
    case Subrange(_, _, base) => PartUnaffected(h, g, n, region, t, base);
    case Chain(_) => ChainUnaffected(h, g, n, region, t);
    case ArrayOf(_, _) => ArrayUnaffected(h, g, n, region, t);
    case Subprogram(ret, params, _) =>
      ParamDrops(g, t, ret);
      ParamDrops(n, t, ret);
      IncorporateUnaffected(h, g, n, region, Some(0), ret, t);
      ParamsUnaffected(h, g, n, region, WithString(h, Incorporate(h, g, Some(0), ret, t), "()"), t, |params|);
    case WithMembers(name, declaration, definition, members) =>
      if declaration {
        PartUnaffected(h, g, n, region, t, definition);
      } else {
        MembersUnaffected(h, g, n, region, WithString(h, Some(0), name), t, |members|);
      }
  }

  lemma RefUnaffected(h: Hash, g: Graph, n: Graph, region: set<Id>, r: Ref, t: Id)
    requires Unaffected(g, n, region) && t in region && Terminates(g) && PartRank(g, r) < PartRank(g, Some(t))
    requires r.Some? ==> r.value in region
    ensures IsRef(g, r) && IsRef(n, r) && Terminates(n) && SummaryRef(h, n, r) == SummaryRef(h, g, r)
    decreases PartRank(g, Some(t)), 0
  {
    hide Unaffected, Terminates, PartRank, HasNames, SummaryOf;
    InRegion(g, n, region, t);
    if r.Some? {
      InRegion(g, n, region, r.value);
      SummaryUnaffected(h, g, n, region, r.value);
    }
  }

  lemma PartUnaffected(h: Hash, g: Graph, n: Graph, region: set<Id>, t: Id, r: Ref)
    requires Unaffected(g, n, region) && t in region && Terminates(g) && t in g && HasNames(g)
    requires r.Some? ==> r.value in Parts(g, t)
    ensures IsRef(g, r) && IsRef(n, r) && Terminates(n) && SummaryRef(h, n, r) == SummaryRef(h, g, r)
    decreases PartRank(g, Some(t)), 1
  {
    hide Unaffected, Terminates, PartRank, HasNames, Parts, SummaryRef;
    InRegion(g, n, region, t);
    RefDrops(g, t, r);
    RefUnaffected(h, g, n, region, r, t);
  }

  lemma {:induction false} ConcreteInRegion(g: Graph, n: Graph, region: set<Id>, t: Id)
    requires Unaffected(g, n, region) && t in region && HasNames(g) && t in g
    ensures Concrete(g, Some(t)).Some? ==> Concrete(g, Some(t)).value in region
    decreases NameRank(g, Some(t))
  {
    hide Unaffected, NameRank, HasNames;
    InRegion(g, n, region, t);
    UnderEdge(g, t);
    if g[t].Chain? && g[t].target.Some? {
      assert g[t].target.value in Parts(g, t);
      ConcreteInRegion(g, n, region, g[t].target.value);
    }
  }

  lemma {:induction false} ElementInRegion(g: Graph, n: Graph, region: set<Id>, t: Id)
    requires Unaffected(g, n, region) && t in region && HasNames(g) && t in g
    requires !IsAddress(g, UltimateElement(g, Some(t)))
    ensures UltimateElement(g, Some(t)).Some? ==> UltimateElement(g, Some(t)).value in region
    decreases NameRank(g, Some(t))
  {
    hide Unaffected, NameRank, HasNames;
    InRegion(g, n, region, t);
    UnderEdge(g, t);
    if (g[t].Chain? || g[t].ArrayOf?) && Under(g[t]).Some? {
      assert Under(g[t]).value in Parts(g, t);
      ElementInRegion(g, n, region, Under(g[t]).value);
    }
  }

  lemma ChainUnaffected(h: Hash, g: Graph, n: Graph, region: set<Id>, t: Id)
    requires Unaffected(g, n, region) && t in region && Terminates(g) && t in g && g[t].Chain?
    ensures Terminates(n) && t in n && SummaryOf(h, n, t) == SummaryOf(h, g, t)
    decreases PartRank(g, Some(t)), 1
  {
    hide Unaffected, Terminates, PartRank, HasNames, Concrete, SummaryRef;
    InRegion(g, n, region, t);
    SameRef(g, n, region, Some(t));
    ConcreteInRegion(g, n, region, t);
    ConcreteDrops(g, t);
    RefUnaffected(h, g, n, region, Concrete(g, Some(t)), t);
  }

  lemma ArrayUnaffected(h: Hash, g: Graph, n: Graph, region: set<Id>, t: Id)
    requires Unaffected(g, n, region) && t in region && Terminates(g) && t in g && g[t].ArrayOf?
    ensures Terminates(n) && t in n && SummaryOf(h, n, t) == SummaryOf(h, g, t)
    decreases PartRank(g, Some(t)), 1
  {
    hide Unaffected, Terminates, PartRank, HasNames, UltimateElement, UltimateCount, SummaryRef;
    InRegion(g, n, region, t);
    SameRef(g, n, region, Some(t));
    var el := UltimateElement(g, Some(t));
    SameRef(g, n, region, el);
    SameAddress(g, n, region, el);
    if !IsAddress(g, el) {
      ElementInRegion(g, n, region, t);
      ElementDrops(g, t);
      RefUnaffected(h, g, n, region, el, t);
    }
  }

  lemma SameAddress(g: Graph, n: Graph, region: set<Id>, r: Ref)
    requires Unaffected(g, n, region)
    ensures IsAddress(n, r) == IsAddress(g, r)
  {
  }

  lemma IncorporateUnaffected(h: Hash, g: Graph, n: Graph, region: set<Id>, w: Word, r: Ref, t: Id)
    requires Unaffected(g, n, region) && t in region && Terminates(g) && HasNames(g) && t in g && IsRef(g, r)
    requires Terminates(n) && HasNames(n) && t in n && IsRef(n, r)
    requires !HoldsAddress(g, r) ==> PartRank(g, r) < PartRank(g, Some(t))
    requires !HoldsAddress(n, r) ==> PartRank(n, r) < PartRank(n, Some(t))
    requires !HoldsAddress(g, r) && r.Some? ==> r.value in Parts(g, t)
    ensures Incorporate(h, n, w, r, t) == Incorporate(h, g, w, r, t)
    decreases PartRank(g, Some(t)), 2, 0
  {
    hide Unaffected, Terminates, PartRank, HasNames, HoldsAddress, Parts, SummaryRef, Concrete;
    InRegion(g, n, region, t);
    SameRef(g, n, region, r);
    if !HoldsAddress(g, r) {
      RefUnaffected(h, g, n, region, r, t);
    }
  }

  lemma ParamsUnaffected(h: Hash, g: Graph, n: Graph, region: set<Id>, w: Word, t: Id, k: nat)
    requires Unaffected(g, n, region) && t in region && Terminates(g) && t in g && g[t].Subprogram?
    requires k <= |g[t].params|
    ensures Terminates(n) && t in n && n[t] == g[t] && WithParams(h, n, w, t, k) == WithParams(h, g, w, t, k)
    decreases PartRank(g, Some(t)), 2, k + 1
  {
    hide Unaffected, Terminates, PartRank, HasNames, HoldsAddress, Parts, Incorporate;
    InRegion(g, n, region, t);
    if k > 0 {
      var r := g[t].params[k - 1];
      ParamDrops(g, t, r);
      ParamDrops(n, t, r);
      ParamsUnaffected(h, g, n, region, w, t, k - 1);
      IncorporateUnaffected(h, g, n, region, WithParams(h, g, w, t, k - 1), r, t);
    }
  }

  lemma MembersUnaffected(h: Hash, g: Graph, n: Graph, region: set<Id>, w: Word, t: Id, k: nat)
    requires Unaffected(g, n, region) && t in region && Terminates(g) && t in g
    requires g[t].WithMembers? && !g[t].declaration && k <= |g[t].members|
    ensures Terminates(n) && t in n && n[t] == g[t] && WithMembersUpTo(h, n, w, t, k) == WithMembersUpTo(h, g, w, t, k)
    decreases PartRank(g, Some(t)), 2, k + 1
  {
    hide Unaffected, Terminates, PartRank, HasNames, HoldsAddress, Parts, Incorporate;
    InRegion(g, n, region, t);
    if k > 0 {
      var m := g[t].members[k - 1];
      MembersUnaffected(h, g, n, region, w, t, k - 1);
      if Counts(m) {
        MemberDrops(g, t, k - 1);
        MemberDrops(n, t, k - 1);
        var before := WithToken(h, WithMembersUpTo(h, g, w, t, k - 1), m.offset.value);
        IncorporateUnaffected(h, g, n, region, before, Some(m.typ), t);
      }
    }
  }
}
