/** What goes into a summary, kind by kind, in the order in which it is put in; and what abstract names are. */
module SummaryContents {
  import opened Wrappers
  import opened Summary

  // ---- What is put in ----

  /** A number, the characters of a string and the check after them, or the code of another type. */
  datatype Put = Number(n: nat) | Text(s: string) | Code(code: Word)

  function PutOne(h: Hash, w: Word, p: Put): Word {
    match p
    case Number(n) => if w.None? then None else Some(h.mix(w.value, n))
    case Code(code) => if w.None? || code.None? then None else Some(h.mix(w.value, code.value))
    case Text(s) => if w.None? then None else Some(h.zeroCheck(Mixed(h, w.value, s)))
  }

  function Mixed(h: Hash, v: nat, s: string): nat
    decreases |s|
  {
    if s == "" then v else Mixed(h, h.mix(v, s[0] as nat), s[1..])
  }

  /** Puts them in from the first on. */
  function PutAll(h: Hash, w: Word, ps: seq<Put>): Word
    decreases |ps|
  {
    if ps == [] then w else PutAll(h, PutOne(h, w, ps[0]), ps[1..])
  }

  lemma {:induction false} PutBoth(h: Hash, w: Word, ps: seq<Put>, qs: seq<Put>)
    ensures PutAll(h, w, ps + qs) == PutAll(h, PutAll(h, w, ps), qs)
    decreases |ps|
  {
    if ps == [] {
      assert ps + qs == qs;
    } else {
      assert (ps + qs)[1..] == ps[1..] + qs;
      PutBoth(h, PutOne(h, w, ps[0]), ps[1..], qs);
    }
  }

  lemma PutSingle(h: Hash, w: Word, p: Put)
    ensures PutAll(h, w, [p]) == PutOne(h, w, p) && PutAll(h, w, []) == w
  {
    assert [p][1..] == [];
  }

  function Numbers(ns: seq<nat>): seq<Put> { seq(|ns|, k requires 0 <= k < |ns| => Number(ns[k])) }

  lemma {:induction false} TokensAre(h: Hash, w: Word, tokens: seq<nat>)
    ensures WithTokens(h, w, tokens) == PutAll(h, w, Numbers(tokens))
  {
    if tokens == [] {
      assert Numbers(tokens) == [];
    } else {
      var init, last := tokens[..|tokens| - 1], tokens[|tokens| - 1];
      TokensAre(h, w, init);
      assert Numbers(tokens) == Numbers(init) + [Number(last)];
      PutBoth(h, w, Numbers(init), [Number(last)]);
      PutSingle(h, PutAll(h, w, Numbers(init)), Number(last));
    }
  }

  lemma {:induction false} MixedAre(h: Hash, v: nat, s: string)
    ensures PutAll(h, Some(v), Numbers(Chars(s))) == Some(Mixed(h, v, s))
    decreases |s|
  {
    if s == "" {
      assert Numbers(Chars(s)) == [];
    } else {
      MixedAre(h, h.mix(v, s[0] as nat), s[1..]);
      assert Numbers(Chars(s))[1..] == Numbers(Chars(s[1..]));
    }
  }

  lemma StringIs(h: Hash, w: Word, s: string)
    ensures WithString(h, w, s) == PutOne(h, w, Text(s))
  {
    TokensAre(h, w, Chars(s));
    if w.Some? { MixedAre(h, w.value, s); } else { NothingPut(h, Numbers(Chars(s))); }
  }

  lemma {:induction false} NothingPut(h: Hash, ps: seq<Put>)
    ensures PutAll(h, None, ps) == None
  {
    if ps != [] { NothingPut(h, ps[1..]); }
  }

  lemma WordIs(h: Hash, w: Word, x: Word)
    ensures WithWord(h, w, x) == PutOne(h, w, Code(x))
  {
  }

  // ---- Equal codes ----

  /** A hash that loses nothing: from a word one can tell what went in last, and what the word was before. */
  ghost predicate Recording(h: Hash) {
    && (forall a, b, c, d :: h.mix(a, b) == h.mix(c, d) ==> a == c && b == d)
    && (forall a, b :: h.zeroCheck(a) == h.zeroCheck(b) ==> a == b)
    && (forall a, b, c :: h.mix(a, b) != h.zeroCheck(c))
    && (forall a, b :: h.mix(a, b) != 0)
    && (forall a :: h.zeroCheck(a) != 0)
  }

  /** There is such a hash. */
  lemma RecordingExists() returns (h: Hash)
    ensures Recording(h)
  {
    h := Hash((a, b) => 2 * Paired(a, b), a => 2 * a + 1);
    forall a, b, c, d | h.mix(a, b) == h.mix(c, d) ensures a == c && b == d { PairedApart(a, b, c, d); }
    forall a, b ensures h.mix(a, b) != 0 { PairedPositive(a, b); }
  }

  function Paired(a: nat, b: nat): nat { if a == 0 then 2 * b + 1 else 2 * Paired(a - 1, b) }

  lemma {:induction false} PairedPositive(a: nat, b: nat)
    ensures Paired(a, b) > 0
  {
    if a > 0 { PairedPositive(a - 1, b); }
  }

  lemma {:induction false} PairedApart(a: nat, b: nat, c: nat, d: nat)
    requires Paired(a, b) == Paired(c, d)
    ensures a == c && b == d
  {
    if a > 0 && c > 0 { PairedApart(a - 1, b, c - 1, d); }
  }

  /** The numbers and characters put in, with None for the end of a string. */
  function Stream(ps: seq<Put>): seq<Option<nat>> {
    if ps == [] then [] else Stream(ps[..|ps| - 1]) + OneStream(ps[|ps| - 1])
  }

  function OneStream(p: Put): seq<Option<nat>> {
    match p
    case Number(n) => [Some(n)]
    case Code(code) => [code]
    case Text(s) => seq(|s|, k requires 0 <= k < |s| => Some(s[k] as nat)) + [None]
  }

  /** The word made from a stream. */
  function FromStream(h: Hash, s: seq<Option<nat>>): nat {
    if s == [] then 0
    else
      var before, x := FromStream(h, s[..|s| - 1]), s[|s| - 1];
      if x.Some? then h.mix(before, x.value) else h.zeroCheck(before)
  }

  lemma {:induction false} StreamsSame(h: Hash, s: seq<Option<nat>>, t: seq<Option<nat>>)
    requires Recording(h) && FromStream(h, s) == FromStream(h, t)
    ensures s == t
    decreases |s|
  {
    NotStart(h, s);
    NotStart(h, t);
    if s != [] && t != [] {
      var x, y := s[|s| - 1], t[|t| - 1];
      assert x == y && FromStream(h, s[..|s| - 1]) == FromStream(h, t[..|t| - 1]);
      StreamsSame(h, s[..|s| - 1], t[..|t| - 1]);
      assert s == s[..|s| - 1] + [x] && t == t[..|t| - 1] + [y];
    }
  }

  lemma NotStart(h: Hash, s: seq<Option<nat>>)
    requires Recording(h)
    ensures FromStream(h, s) == 0 <==> s == []
  {
    if s != [] { assert FromStream(h, s) != 0; }
  }

  lemma {:induction false} FromAppended(h: Hash, s: seq<Option<nat>>, x: Option<nat>)
    ensures FromStream(h, s + [x])
            == if x.Some? then h.mix(FromStream(h, s), x.value) else h.zeroCheck(FromStream(h, s))
  {
    assert (s + [x])[..|s|] == s;
  }

  lemma {:induction false} FromText(h: Hash, s: seq<Option<nat>>, text: string)
    ensures FromStream(h, s + OneStream(Text(text))[..|text|]) == Mixed(h, FromStream(h, s), text)
    decreases |text|
  {
    var chars := OneStream(Text(text))[..|text|];
    if text == "" {
      assert s + chars == s;
    } else {
      var first := Some(text[0] as nat);
      FromAppended(h, s, first);
      FromText(h, s + [first], text[1..]);
      assert s + chars == s + [first] + OneStream(Text(text[1..]))[..|text| - 1];
    }
  }

  lemma OnePutStream(h: Hash, s: seq<Option<nat>>, p: Put)
    requires PutOne(h, Some(FromStream(h, s)), p).Some?
    ensures PutOne(h, Some(FromStream(h, s)), p).value == FromStream(h, s + OneStream(p))
  {
    hide FromStream, Mixed;
    match p {
      case Number(n) => FromAppended(h, s, Some(n));
      case Code(code) => FromAppended(h, s, code);
      case Text(text) =>
        var chars := OneStream(p)[..|text|];
        FromText(h, s, text);
        FromAppended(h, s + chars, None);
        assert s + OneStream(p) == s + chars + [None];
    }
  }

  /** Putting in gives the word of the stream. */
  lemma {:induction false} PutsStream(h: Hash, ps: seq<Put>)
    requires PutAll(h, Some(0), ps).Some?
    ensures PutAll(h, Some(0), ps).value == FromStream(h, Stream(ps))
  {
    hide OneStream, PutOne;
    if ps == [] {
      assert FromStream(h, []) == 0;
    } else {
      var init, p := ps[..|ps| - 1], ps[|ps| - 1];
      assert ps == init + [p];
      hide FromStream;
      PutBoth(h, Some(0), init, [p]);
      PutSingle(h, PutAll(h, Some(0), init), p);
      if PutAll(h, Some(0), init).None? { NothingPut(h, [p]); }
      PutsStream(h, init);
      OnePutStream(h, Stream(init), p);
    }
  }

  /** If the hash loses nothing, equal codes are made from the same numbers and characters in the same order. */
  lemma SameCodeSameStream(h: Hash, ps: seq<Put>, qs: seq<Put>)
    requires Recording(h) && PutAll(h, Some(0), ps).Some? && PutAll(h, Some(0), ps) == PutAll(h, Some(0), qs)
    ensures Stream(ps) == Stream(qs)
  {
    PutsStream(h, ps);
    PutsStream(h, qs);
    StreamsSame(h, Stream(ps), Stream(qs));
  }

  // ---- What pointers, arrays and typedefs lead to ----

  /** The type is made from that one. */
  predicate MadeFrom(d: Die, from: Ref) {
    match d
    case Chain(target) => from == target
    case AddressHolding(_, _, target) => from == target
    case ArrayOf(elem, _) => from == elem
    case _ => false
  }

  /** p goes from its first type along the types that typedefs, pointers and arrays are made from; end comes after the
      last. */
  ghost predicate Follows(g: Graph, p: seq<Id>, end: Ref) {
    && p != [] && p[0] in g
    && if |p| == 1 then MadeFrom(g[p[0]], end) else MadeFrom(g[p[0]], Some(p[1])) && Follows(g, p[1..], end)
  }

  lemma FollowsTail(g: Graph, p: seq<Id>, end: Ref)
    requires Follows(g, p, end) && |p| > 1
    ensures Follows(g, p[1..], end)
  {
  }

  lemma FollowsUnder(g: Graph, p: seq<Id>, end: Ref)
    requires Follows(g, p, end)
    ensures p[0] in g && Under(g[p[0]]) == if |p| > 1 then Some(p[1]) else end
  {
  }

  ghost predicate AllOf(g: Graph, p: seq<Id>, kind: Die -> bool) {
    forall i :: 0 <= i < |p| ==> p[i] in g && kind(g[p[i]])
  }

  /** From any type there is such a way, as far as the kinds go. */
  lemma {:induction false} WayExists(g: Graph, t: Id, kind: Die -> bool) returns (p: seq<Id>, end: Ref)
    requires HasNames(g) && t in g && kind(g[t])
    requires forall d: Die :: kind(d) ==> d.Chain? || d.AddressHolding? || d.ArrayOf?
    ensures Follows(g, p, end) && p[0] == t && AllOf(g, p, kind)
    ensures end.Some? ==> end.value in g && !kind(g[end.value])
    decreases NameRank(g, Some(t))
  {
    hide HasNames, NameRank;
    UnderEdge(g, t);
    var next := Under(g[t]);
    if next.Some? && kind(g[next.value]) {
      var q: seq<Id>;
      q, end := WayExists(g, next.value, kind);
      p := [t] + q;
      assert p[1..] == q;
    } else {
      p, end := [t], next;
    }
  }

  /** The product of the counts of the arrays, if all are known. */
  function ProductOfCounts(g: Graph, p: seq<Id>): Option<nat>
    requires forall i :: 0 <= i < |p| ==> p[i] in g
  {
    if p == [] then Some(1)
    else
      var rest := ProductOfCounts(g, p[1..]);
      match g[p[0]]
      case ArrayOf(_, count) =>
        if count.None? || rest.None? then None else Some(Times(count.value, rest.value))
      case _ => rest
  }

  function Times(a: nat, b: nat): nat { if a == 0 then 0 else b + Times(a - 1, b) }

  lemma {:induction false} TimesIs(a: nat, b: nat)
    ensures Times(a, b) == b * a
  {
    if a > 0 { TimesIs(a - 1, b); }
  }

  /** The types under typedefs and arrays, and the number of the elements. */
  lemma {:induction false} ElementsAre(g: Graph, p: seq<Id>, end: Ref)
    requires HasNames(g) && Follows(g, p, end)
    requires AllOf(g, p, (d: Die) => d.Chain? || d.ArrayOf?)
    requires end.Some? ==> end.value in g && !g[end.value].Chain? && !g[end.value].ArrayOf?
    ensures UltimateElement(g, Some(p[0])) == end && UltimateCount(g, Some(p[0])) == ProductOfCounts(g, p)
    decreases |p|
  {
    hide HasNames;
    FollowsUnder(g, p, end);
    UnderEdge(g, p[0]);
    if |p| > 1 {
      FollowsTail(g, p, end);
      ElementsAre(g, p[1..], end);
    } else {
      assert p[1..] == [];
      assert UltimateCount(g, end) == Some(1) && UltimateElement(g, end) == end;
    }
    if g[p[0]].ArrayOf? && g[p[0]].count.Some? && ProductOfCounts(g, p[1..]).Some? {
      TimesIs(g[p[0]].count.value, ProductOfCounts(g, p[1..]).value);
    }
  }

  /** The type under typedefs. */
  lemma {:induction false} ConcreteIs(g: Graph, p: seq<Id>, end: Ref)
    requires HasNames(g) && Follows(g, p, end) && AllOf(g, p, (d: Die) => d.Chain?)
    requires end.Some? ==> end.value in g && !g[end.value].Chain?
    ensures Concrete(g, Some(p[0])) == end
    decreases |p|
  {
    hide HasNames;
    FollowsUnder(g, p, end);
    UnderEdge(g, p[0]);
    if |p| > 1 {
      FollowsTail(g, p, end);
      ConcreteIs(g, p[1..], end);
    }
  }

  /** What pointers and typedefs end at: a declaration stands for its definition, if it has one. */
  lemma {:induction false} ReachedIs(g: Graph, p: seq<Id>, end: Ref)
    requires HasNames(g) && Follows(g, p, end)
    requires AllOf(g, p, (d: Die) => d.Chain? || d.AddressHolding?)
    requires end.Some? ==> end.value in g && !g[end.value].Chain? && !g[end.value].AddressHolding?
    ensures UltimateReached(g, Some(p[0]))
            == if end.Some? && g[end.value].WithMembers? && g[end.value].declaration && g[end.value].definition.Some?
               then g[end.value].definition else end
    decreases |p|
  {
    hide HasNames;
    FollowsUnder(g, p, end);
    UnderEdge(g, p[0]);
    if |p| > 1 {
      FollowsTail(g, p, end);
      ReachedIs(g, p[1..], end);
    }
  }

  // ---- Abstract names ----

  /** The digits of a number. */
  ghost predicate IsDecimal(s: string, n: nat) {
    && s != "" && (forall k :: 0 <= k < |s| ==> '0' <= s[k] <= '9') && (|s| > 1 ==> s[0] != '0')
    && DecimalValue(s) == n
  }

  function DecimalValue(s: string): int {
    if s == "" then 0 else 10 * DecimalValue(s[..|s| - 1]) + (s[|s| - 1] as int - '0' as int)
  }

  lemma {:induction false} DecimalIs(n: nat)
    ensures IsDecimal(Decimal(n), n)
  {
    if n >= 10 {
      DecimalIs(n / 10);
      var d := Decimal(n);
      assert d[..|d| - 1] == Decimal(n / 10);
    } else {
      assert Decimal(n)[..0] == "";
    }
  }

  /** Void and unspecified types are called void; base types, enumerations and types with members by their names;
      strings by their length. */
  lemma OwnNames(g: Graph, t: Id) returns (digits: string)
    requires HasNames(g) && t in g
    ensures Name(g, None) == "void"
    ensures g[t].Unspecified? ==> Name(g, Some(t)) == "void"
    ensures g[t].Base? || g[t].Enumeration? || g[t].WithMembers? ==> Name(g, Some(t)) == g[t].name
    ensures g[t].StringOf? ==> IsDecimal(digits, g[t].len) && Name(g, Some(t)) == "__STR" + digits + "__1"
  {
    hide HasNames, IsDecimal, DecimalValue, Decimal;
    UnderEdge(g, t);
    digits := "";
    if g[t].StringOf? {
      DecimalIs(g[t].len);
      digits := Decimal(g[t].len);
    }
  }

  /** Pointers, references and arrays put a prefix before the name of their target; typedefs have the name of
      theirs. */
  lemma PrefixedNames(g: Graph, t: Id) returns (target: Ref, digits: string)
    requires HasNames(g) && t in g
    requires g[t].Chain? || g[t].AddressHolding? || g[t].ArrayOf? || g[t].Subrange?
    ensures IsRef(g, target)
    ensures g[t].Chain? ==> target == g[t].target && Name(g, Some(t)) == Name(g, target)
    ensures g[t].AddressHolding? ==>
              var prefix := if g[t].tag == 0x0f then "__PTR_" else if g[t].tag == 0x10 then "__REF_" else "__RR_";
              target == g[t].target && Name(g, Some(t)) == prefix + Name(g, target)
    ensures g[t].ArrayOf? ==>
              && target == g[t].elem && (if g[t].count.Some? then IsDecimal(digits, g[t].count.value) else digits == "")
              && Name(g, Some(t)) == "__ARR" + digits + "_" + Name(g, target)
    ensures g[t].Subrange? ==> target == g[t].base && Name(g, Some(t)) == g[t].prefix + Name(g, target)
  {
    hide HasNames, IsDecimal, DecimalValue, Decimal;
    UnderEdge(g, t);
    target, digits := Under(g[t]), "";
    if g[t].ArrayOf? && g[t].count.Some? {
      DecimalIs(g[t].count.value);
      digits := Decimal(g[t].count.value);
    }
    if g[t].Chain? { assert "" + Name(g, target) == Name(g, target); }
  }

  /** Subprograms name their parameters, and then their result. */
  lemma SubprogramNames(g: Graph, t: Id)
    requires HasNames(g) && t in g && g[t].Subprogram?
    ensures IsRef(g, g[t].ret)
    ensures Name(g, Some(t))
            == "__FUN_FROM_" + ParamNames(g, t, 0) + (if g[t].variadic then "__VA_" else "")
               + "__FUN_TO_" + Name(g, g[t].ret)
  {
    hide HasNames;
    UnderEdge(g, t);
    SubprogramEdges(g, t);
  }

  /** The parameters come in order, each after its number. */
  lemma ParamNamesAre(g: Graph, t: Id, k: nat) returns (digits: string)
    requires HasNames(g) && t in g && g[t].Subprogram? && k < |g[t].params|
    ensures ParamNames(g, t, |g[t].params|) == "" && IsRef(g, g[t].params[k])
    ensures IsDecimal(digits, k)
    ensures ParamNames(g, t, k) == "__ARG" + digits + "_" + Name(g, g[t].params[k]) + ParamNames(g, t, k + 1)
  {
    hide HasNames, IsDecimal, DecimalValue, Decimal;
    SubprogramEdges(g, t);
    DecimalIs(k);
    digits := Decimal(k);
  }

  // ---- What goes into the summary of each kind ----

  /** Inside a subprogram, structure or array a pointer or reference, under typedefs, puts in its abstract name, and
      any other type its code. */
  function Contributes(h: Hash, g: Graph, r: Ref): Put
    requires Terminates(g) && HasNames(g) && IsRef(g, r)
  {
    var c := Concrete(g, r);
    if c.Some? && g[c.value].AddressHolding? then Text(Name(g, c)) else Code(SummaryRef(h, g, r))
  }

  lemma IncorporateIs(h: Hash, g: Graph, w: Word, r: Ref, t: Id)
    requires Terminates(g) && HasNames(g) && t in g && IsRef(g, r)
    requires !HoldsAddress(g, r) ==> PartRank(g, r) < PartRank(g, Some(t))
    ensures Incorporate(h, g, w, r, t) == PutOne(h, w, Contributes(h, g, r))
  {
    hide Terminates, HasNames, PartRank, SummaryRef, Name;
    var c := Concrete(g, r);
    if HoldsAddress(g, r) { StringIs(h, w, Name(g, c)); } else { WordIs(h, w, SummaryRef(h, g, r)); }
  }

  /** Void has the code zero; unspecified types have none; base types and strings are their numbers. */
  lemma PlainCodes(h: Hash, g: Graph, t: Id)
    requires Terminates(g) && t in g
    ensures SummaryRef(h, g, None) == Some(0)
    ensures g[t].Unspecified? ==> SummaryRef(h, g, Some(t)) == None
    ensures g[t].Base? ==> SummaryRef(h, g, Some(t)) == PutAll(h, Some(0), [Number(0x24)] + Numbers(g[t].tokens))
    ensures g[t].StringOf? ==> SummaryRef(h, g, Some(t)) == PutAll(h, Some(0), [Number(0x12), Number(g[t].len)])
  {
    hide Terminates, HasNames, PartRank, PutAll, PutOne;
    if g[t].Base? {
      TokensAre(h, Some(0), [0x24] + g[t].tokens);
      assert Numbers([0x24] + g[t].tokens) == [Number(0x24)] + Numbers(g[t].tokens);
    }
    if g[t].StringOf? {
      TokensAre(h, Some(0), [0x12, g[t].len]);
      assert Numbers([0x12, g[t].len]) == [Number(0x12), Number(g[t].len)];
    }
  }

  /** Enumerations are their name, their enumerators and the code of their type, if they have one. */
  lemma EnumerationCode(h: Hash, g: Graph, t: Id)
    requires Terminates(g) && t in g && g[t].Enumeration?
    ensures IsRef(g, g[t].base)
    ensures SummaryRef(h, g, Some(t))
            == PutAll(h, Some(0), [Text(g[t].name)] + Numbers(g[t].tokens)
                                  + if g[t].base.Some? then [Code(SummaryRef(h, g, g[t].base))] else [])
  {
    hide Terminates, HasNames, PartRank, PutAll, PutOne, WithString, WithTokens, WithWord;
    RefDrops(g, t, g[t].base);
    var d := g[t];
    var last := if d.base.Some? then [Code(SummaryRef(h, g, d.base))] else [];
    var named := PutOne(h, Some(0), Text(d.name));
    StringIs(h, Some(0), d.name);
    PutSingle(h, Some(0), Text(d.name));
    TokensAre(h, named, d.tokens);
    PutBoth(h, Some(0), [Text(d.name)], Numbers(d.tokens));
    PutBoth(h, Some(0), [Text(d.name)] + Numbers(d.tokens), last);
    var w := PutAll(h, named, Numbers(d.tokens));
    if d.base.Some? {
      WordIs(h, w, SummaryRef(h, g, d.base));
      PutSingle(h, w, last[0]);
    } else {
      PutSingle(h, w, Number(0));
    }
  }

  /** Subranges are the code of their type, if they have one, and their bounds; not their names. */
  lemma SubrangeCode(h: Hash, g: Graph, t: Id)
    requires Terminates(g) && t in g && g[t].Subrange?
    ensures IsRef(g, g[t].base)
    ensures SummaryRef(h, g, Some(t))
            == PutAll(h, Some(0), (if g[t].base.Some? then [Code(SummaryRef(h, g, g[t].base))] else [])
                                  + Numbers(g[t].tokens))
  {
    hide Terminates, HasNames, PartRank, PutAll, PutOne, WithTokens, WithWord;
    RefDrops(g, t, g[t].base);
    var d := g[t];
    var first := if d.base.Some? then [Code(SummaryRef(h, g, d.base))] else [];
    PutBoth(h, Some(0), first, Numbers(d.tokens));
    var w := PutAll(h, Some(0), first);
    if d.base.Some? {
      WordIs(h, Some(0), SummaryRef(h, g, d.base));
      PutSingle(h, Some(0), first[0]);
    } else {
      PutSingle(h, Some(0), Number(0));
    }
    TokensAre(h, w, d.tokens);
  }

  function ParamPuts(h: Hash, g: Graph, params: seq<Ref>): seq<Put>
    requires Terminates(g) && HasNames(g) && forall k :: 0 <= k < |params| ==> IsRef(g, params[k])
  {
    hide Terminates, HasNames;
    seq(|params|, k requires 0 <= k < |params| => Contributes(h, g, params[k]))
  }

  lemma {:induction false} ParamsAre(h: Hash, g: Graph, w: Word, t: Id, k: nat)
    requires Terminates(g) && HasNames(g) && t in g && g[t].Subprogram? && k <= |g[t].params|
    requires forall j :: 0 <= j < |g[t].params| ==> IsRef(g, g[t].params[j])
    ensures WithParams(h, g, w, t, k) == PutAll(h, w, ParamPuts(h, g, g[t].params[..k]))
  {
    hide Terminates, HasNames, PartRank, Contributes, Incorporate, PutOne, HoldsAddress;
    if k == 0 {
      PutSingle(h, w, Number(0));
      assert ParamPuts(h, g, g[t].params[..0]) == [];
    } else {
      hide PutAll;
      var r := g[t].params[k - 1];
      ParamDrops(g, t, r);
      ParamsAre(h, g, w, t, k - 1);
      var before := WithParams(h, g, w, t, k - 1);
      IncorporateIs(h, g, before, r, t);
      assert ParamPuts(h, g, g[t].params[..k]) == ParamPuts(h, g, g[t].params[..k - 1]) + [Contributes(h, g, r)];
      PutBoth(h, w, ParamPuts(h, g, g[t].params[..k - 1]), [Contributes(h, g, r)]);
      PutSingle(h, before, Contributes(h, g, r));
    }
  }

  /** Subprograms are their result, the characters "()", their parameters and, if variadic, "...". */
  lemma SubprogramCode(h: Hash, g: Graph, t: Id)
    requires Terminates(g) && HasNames(g) && t in g && g[t].Subprogram?
    ensures IsRef(g, g[t].ret) && forall k :: 0 <= k < |g[t].params| ==> IsRef(g, g[t].params[k])
    ensures SummaryRef(h, g, Some(t))
            == PutAll(h, Some(0), [Contributes(h, g, g[t].ret), Text("()")] + ParamPuts(h, g, g[t].params)
                                  + if g[t].variadic then [Text("...")] else [])
  {
    hide Terminates, HasNames, PartRank, Contributes, Incorporate, PutOne, PutAll, HoldsAddress, WithString, ParamPuts;
    hide WithParams;
    SubprogramEdges(g, t);
    ParamDrops(g, t, g[t].ret);
    var d := g[t];
    var result := Contributes(h, g, d.ret);
    IncorporateIs(h, g, Some(0), d.ret, t);
    var w0 := PutOne(h, Some(0), result);
    StringIs(h, w0, "()");
    var w1 := PutOne(h, w0, Text("()"));
    PutTwo(h, Some(0), result, Text("()"));
    assert d.params[..|d.params|] == d.params;
    ParamsAre(h, g, w1, t, |d.params|);
    var head, middle := [result, Text("()")], ParamPuts(h, g, d.params);
    var last := if d.variadic then [Text("...")] else [];
    PutBoth(h, Some(0), head, middle);
    PutBoth(h, Some(0), head + middle, last);
    var w2 := PutAll(h, w1, middle);
    StringIs(h, w2, "...");
    PutSingle(h, w2, Text("..."));
  }

  lemma PutTwo(h: Hash, w: Word, p: Put, q: Put)
    ensures PutAll(h, w, [p, q]) == PutOne(h, PutOne(h, w, p), q)
  {
    assert [p, q][1..] == [q];
    PutSingle(h, PutOne(h, w, p), q);
  }

  /** Members that are declarations or have no offset put in nothing; the others their offset, and what their type
      contributes. */
  function MemberPuts(h: Hash, g: Graph, ms: seq<Member>): seq<Put>
    requires Terminates(g) && HasNames(g) && forall k :: 0 <= k < |ms| ==> ms[k].typ in g
  {
    hide Terminates, HasNames;
    if ms == [] then []
    else
      var m := ms[|ms| - 1];
      MemberPuts(h, g, ms[..|ms| - 1])
      + if m.declaration || m.offset.None? then [] else [Number(m.offset.value), Contributes(h, g, Some(m.typ))]
  }

  lemma {:induction false} MembersAre(h: Hash, g: Graph, w: Word, t: Id, k: nat)
    requires Terminates(g) && HasNames(g) && t in g && g[t].WithMembers? && !g[t].declaration && k <= |g[t].members|
    requires forall j :: 0 <= j < |g[t].members| ==> g[t].members[j].typ in g
    ensures WithMembersUpTo(h, g, w, t, k) == PutAll(h, w, MemberPuts(h, g, g[t].members[..k]))
  {
    hide Terminates, HasNames, PartRank, Contributes, Incorporate, PutOne, HoldsAddress;
    if k == 0 {
      PutSingle(h, w, Number(0));
    } else {
      var m := g[t].members[k - 1];
      var now, earlier := g[t].members[..k], g[t].members[..k - 1];
      assert now[|now| - 1] == m && now[..|now| - 1] == earlier;
      MembersAre(h, g, w, t, k - 1);
      var before := WithMembersUpTo(h, g, w, t, k - 1);
      if Counts(m) {
        MemberDrops(g, t, k - 1);
        var first, second := Number(m.offset.value), Contributes(h, g, Some(m.typ));
        TokenIs(h, before, m.offset.value);
        IncorporateIs(h, g, PutOne(h, before, first), Some(m.typ), t);
        PutTwo(h, before, first, second);
        PutBoth(h, w, MemberPuts(h, g, earlier), [first, second]);
      } else {
        assert MemberPuts(h, g, earlier) + [] == MemberPuts(h, g, earlier);
      }
    }
  }

  lemma TokenIs(h: Hash, w: Word, n: nat)
    ensures WithToken(h, w, n) == PutOne(h, w, Number(n))
  {
  }

  lemma MembersIn(g: Graph, t: Id)
    requires HasNames(g) && t in g && g[t].WithMembers? && !g[t].declaration
    ensures forall j :: 0 <= j < |g[t].members| ==> g[t].members[j].typ in g
  {
    TargetsIn(g, t);
    hide HasNames;
    forall j | 0 <= j < |g[t].members| ensures g[t].members[j].typ in g {
      assert MemberTypes(g[t].members)[j] in Targets(g[t]);
    }
  }

  /** Types with members are their name and their members; a declaration is its definition, if it has one. */
  lemma StructureCode(h: Hash, g: Graph, t: Id)
    requires Terminates(g) && HasNames(g) && t in g && g[t].WithMembers?
    ensures g[t].declaration ==>
              && IsRef(g, g[t].definition)
              && SummaryRef(h, g, Some(t)) == if g[t].definition.Some? then SummaryRef(h, g, g[t].definition) else None
    ensures !g[t].declaration ==>
              && (forall j :: 0 <= j < |g[t].members| ==> g[t].members[j].typ in g)
              && SummaryRef(h, g, Some(t)) == PutAll(h, Some(0), [Text(g[t].name)] + MemberPuts(h, g, g[t].members))
  {
    hide Terminates, HasNames, PartRank, PutOne, PutAll, WithString, MemberPuts, WithMembersUpTo;
    var d := g[t];
    if d.declaration {
      RefDrops(g, t, d.definition);
    } else {
      MembersIn(g, t);
      StringIs(h, Some(0), d.name);
      PutSingle(h, Some(0), Text(d.name));
      assert d.members[..|d.members|] == d.members;
      MembersAre(h, g, PutOne(h, Some(0), Text(d.name)), t, |d.members|);
      PutBoth(h, Some(0), [Text(d.name)], MemberPuts(h, g, d.members));
    }
  }

  /** What a declaration stands for. */
  function Defined(g: Graph, r: Ref): Ref {
    if r.Some? && r.value in g && g[r.value].WithMembers? && g[r.value].declaration && g[r.value].definition.Some?
    then g[r.value].definition else r
  }

  /** Pointers and references are their tag, size and address class, and the code of their target; they have none if
      what they lead to in the end is only declared. */
  lemma PointerCode(h: Hash, g: Graph, p: seq<Id>, end: Ref)
    requires Terminates(g) && HasNames(g) && Follows(g, p, end) && g[p[0]].AddressHolding?
    requires AllOf(g, p, (d: Die) => d.Chain? || d.AddressHolding?)
    requires end.Some? ==> end.value in g && !g[end.value].Chain? && !g[end.value].AddressHolding?
    ensures var d, r := g[p[0]], Defined(g, end);
            && IsRef(g, d.target)
            && SummaryRef(h, g, Some(p[0]))
               == if r.Some? && r.value in g && g[r.value].WithMembers? && g[r.value].declaration then None
                  else PutAll(h, Some(0), [Number(d.tag), Number(d.size), Number(0), Code(SummaryRef(h, g, d.target))])
  {
    ReachedIs(g, p, end);
    hide Terminates, HasNames, PartRank, PutOne, PutAll, UltimateReached, Follows, AllOf, WithTokens, WithWord;
    var d := g[p[0]];
    RefDrops(g, p[0], d.target);
    FourPuts(h, d.tag, d.size, 0, SummaryRef(h, g, d.target));
  }

  lemma FourPuts(h: Hash, a: nat, b: nat, c: nat, x: Word)
    ensures WithWord(h, WithTokens(h, Some(0), [a, b, c]), x)
            == PutAll(h, Some(0), [Number(a), Number(b), Number(c), Code(x)])
  {
    hide PutAll, PutOne, WithTokens;
    TokensAre(h, Some(0), [a, b, c]);
    var puts := [Number(a), Number(b), Number(c)];
    assert Numbers([a, b, c]) == puts && puts + [Code(x)] == [Number(a), Number(b), Number(c), Code(x)];
    PutBoth(h, Some(0), puts, [Code(x)]);
    PutSingle(h, PutAll(h, Some(0), puts), Code(x));
    WordIs(h, PutAll(h, Some(0), puts), x);
  }

  /** The elements of an array: none for void, the abstract name of a pointer, or else the code. */
  function Elements(h: Hash, g: Graph, el: Ref): Put
    requires Terminates(g) && HasNames(g) && IsRef(g, el)
  {
    if el.None? then Code(None)
    else if g[el.value].AddressHolding? then Text(Name(g, el))
    else Code(SummaryRef(h, g, el))
  }

  /** Arrays are their elements, under all the arrays and typedefs, and the product of all counts, or zero if one is
      not known. */
  lemma ArrayCode(h: Hash, g: Graph, p: seq<Id>, end: Ref)
    requires Terminates(g) && HasNames(g) && Follows(g, p, end) && g[p[0]].ArrayOf?
    requires AllOf(g, p, (d: Die) => d.Chain? || d.ArrayOf?)
    requires end.Some? ==> end.value in g && !g[end.value].Chain? && !g[end.value].ArrayOf?
    ensures var n := ProductOfCounts(g, p);
            SummaryRef(h, g, Some(p[0]))
            == PutAll(h, Some(0), [Elements(h, g, end), Number(if n.Some? then n.value else 0)])
  {
    ElementsAre(g, p, end);
    hide Terminates, HasNames, PartRank, PutOne, PutAll, UltimateElement, UltimateCount, Follows, AllOf, WithString;
    hide ProductOfCounts;
    var el, n := Elements(h, g, end), ProductOfCounts(g, p);
    var last := Number(if n.Some? then n.value else 0);
    if end.Some? && g[end.value].AddressHolding? {
      StringIs(h, Some(0), Name(g, end));
    } else {
      WordIs(h, Some(0), if end.None? then None else SummaryRef(h, g, end));
    }
    TokenIs(h, PutOne(h, Some(0), el), last.n);
    PutTwo(h, Some(0), el, last);
  }

  /** Typedefs and qualified types have the code of the type under them. */
  lemma ChainCode(h: Hash, g: Graph, p: seq<Id>, end: Ref)
    requires Terminates(g) && HasNames(g) && Follows(g, p, end) && AllOf(g, p, (d: Die) => d.Chain?)
    requires end.Some? ==> end.value in g && !g[end.value].Chain?
    ensures SummaryRef(h, g, Some(p[0])) == SummaryRef(h, g, end)
  {
    ConcreteIs(g, p, end);
    hide Terminates, HasNames, PartRank, Concrete, Follows;
    ConcreteDrops(g, p[0]);
  }

  // ---- What equal codes tell ----

  lemma StreamOfTwo(p: Put, q: Put)
    ensures Stream([p, q]) == OneStream(p) + OneStream(q)
  {
    assert [p, q][..1] == [p] && [p][..0] == [];
    assert Stream([p]) == Stream([]) + OneStream(p) == OneStream(p);
  }

  /** If the hash loses nothing, arrays with equal codes have equal elements, and as many. */
  lemma ArraysTell(h: Hash, g: Graph, p: seq<Id>, end: Ref, q: seq<Id>, end': Ref)
    requires Recording(h) && Terminates(g) && HasNames(g)
    requires Follows(g, p, end) && g[p[0]].ArrayOf? && AllOf(g, p, (d: Die) => d.Chain? || d.ArrayOf?)
    requires Follows(g, q, end') && g[q[0]].ArrayOf? && AllOf(g, q, (d: Die) => d.Chain? || d.ArrayOf?)
    requires end.Some? ==> end.value in g && !g[end.value].Chain? && !g[end.value].ArrayOf?
    requires end'.Some? ==> end'.value in g && !g[end'.value].Chain? && !g[end'.value].ArrayOf?
    requires SummaryRef(h, g, Some(p[0])).Some? && SummaryRef(h, g, Some(p[0])) == SummaryRef(h, g, Some(q[0]))
    ensures OneStream(Elements(h, g, end)) == OneStream(Elements(h, g, end'))
    ensures var (m, n) := (ProductOfCounts(g, p), ProductOfCounts(g, q));
            (if m.Some? then m.value else 0) == if n.Some? then n.value else 0
  {
    ArrayCode(h, g, p, end);
    ArrayCode(h, g, q, end');
    hide Terminates, HasNames, SummaryRef, PutAll, Recording, Follows, AllOf, ProductOfCounts, Elements, OneStream;
    var (m, n) := (ProductOfCounts(g, p), ProductOfCounts(g, q));
    var a, b := Elements(h, g, end), Elements(h, g, end');
    var c, d := Number(if m.Some? then m.value else 0), Number(if n.Some? then n.value else 0);
    SameCodeSameStream(h, [a, c], [b, d]);
    StreamOfTwo(a, c);
    StreamOfTwo(b, d);
    LastTells(OneStream(a), c, OneStream(b), d);
  }

  lemma LastTells(s: seq<Option<nat>>, c: Put, t: seq<Option<nat>>, d: Put)
    requires c.Number? && d.Number? && s + OneStream(c) == t + OneStream(d)
    ensures s == t && c.n == d.n
  {
    var x, y := s + [Some(c.n)], t + [Some(d.n)];
    assert x[|x| - 1] == y[|y| - 1] && x[..|x| - 1] == s && y[..|y| - 1] == t;
  }

  /** Pointers and references with equal codes have the same tag and size, and targets with equal codes. */
  lemma PointersTell(h: Hash, g: Graph, p: seq<Id>, end: Ref, q: seq<Id>, end': Ref)
    requires Recording(h) && Terminates(g) && HasNames(g)
    requires Follows(g, p, end) && g[p[0]].AddressHolding? && AllOf(g, p, (d: Die) => d.Chain? || d.AddressHolding?)
    requires Follows(g, q, end') && g[q[0]].AddressHolding? && AllOf(g, q, (d: Die) => d.Chain? || d.AddressHolding?)
    requires end.Some? ==> end.value in g && !g[end.value].Chain? && !g[end.value].AddressHolding?
    requires end'.Some? ==> end'.value in g && !g[end'.value].Chain? && !g[end'.value].AddressHolding?
    requires SummaryRef(h, g, Some(p[0])).Some? && SummaryRef(h, g, Some(p[0])) == SummaryRef(h, g, Some(q[0]))
    ensures var (d, e) := (g[p[0]], g[q[0]]);
            && d.tag == e.tag && d.size == e.size && IsRef(g, d.target) && IsRef(g, e.target)
            && SummaryRef(h, g, d.target) == SummaryRef(h, g, e.target)
  {
    PointerCode(h, g, p, end);
    PointerCode(h, g, q, end');
    hide Terminates, HasNames, SummaryRef, PutAll, Recording, Follows, AllOf;
    var (d, e) := (g[p[0]], g[q[0]]);
    var x, y := SummaryRef(h, g, d.target), SummaryRef(h, g, e.target);
    SameCodeSameStream(h, [Number(d.tag), Number(d.size), Number(0), Code(x)],
                       [Number(e.tag), Number(e.size), Number(0), Code(y)]);
    StreamOfFour(d.tag, d.size, 0, x);
    StreamOfFour(e.tag, e.size, 0, y);
    assert [Some(d.tag), Some(d.size), Some(0), x][..] == [Some(e.tag), Some(e.size), Some(0), y][..];
  }

  lemma StreamOfFour(a: nat, b: nat, c: nat, x: Word)
    ensures Stream([Number(a), Number(b), Number(c), Code(x)]) == [Some(a), Some(b), Some(c), x]
  {
    var ps := [Number(a), Number(b), Number(c), Code(x)];
    assert ps[..3] == [Number(a), Number(b), Number(c)] && ps[..3][..2] == [Number(a), Number(b)];
    StreamOfTwo(Number(a), Number(b));
  }

  /** Types with members and equal codes have the same name, and members that put in the same. */
  lemma StructuresTell(h: Hash, g: Graph, t: Id, u: Id)
    requires Recording(h) && Terminates(g) && HasNames(g) && t in g && u in g && g[t].WithMembers? && g[u].WithMembers?
    requires !g[t].declaration && !g[u].declaration
    requires SummaryRef(h, g, Some(t)).Some? && SummaryRef(h, g, Some(t)) == SummaryRef(h, g, Some(u))
    requires (forall j :: 0 <= j < |g[t].members| ==> g[t].members[j].typ in g)
    requires (forall j :: 0 <= j < |g[u].members| ==> g[u].members[j].typ in g)
    ensures g[t].name == g[u].name
    ensures Stream(MemberPuts(h, g, g[t].members)) == Stream(MemberPuts(h, g, g[u].members))
  {
    StructureCode(h, g, t);
    StructureCode(h, g, u);
    hide Terminates, HasNames, SummaryRef, PutAll, Recording, OneStream, MemberPuts;
    var (a, b) := (MemberPuts(h, g, g[t].members), MemberPuts(h, g, g[u].members));
    SameCodeSameStream(h, [Text(g[t].name)] + a, [Text(g[u].name)] + b);
    StreamAfter(Text(g[t].name), a);
    StreamAfter(Text(g[u].name), b);
    FirstTells(g[t].name, Stream(a), g[u].name, Stream(b));
  }

  lemma {:induction false} StreamAfter(p: Put, ps: seq<Put>)
    ensures Stream([p] + ps) == OneStream(p) + Stream(ps)
  {
    hide OneStream, Stream;
    StreamLast([], p);
    assert [] + [p] == [p];
    if ps == [] {
      assert [p] + ps == [p] && OneStream(p) + [] == OneStream(p);
    } else {
      var init, last := ps[..|ps| - 1], ps[|ps| - 1];
      StreamAfter(p, init);
      assert ps == init + [last] && [p] + ps == ([p] + init) + [last];
      StreamLast(init, last);
      StreamLast([p] + init, last);
      assert OneStream(p) + (Stream(init) + OneStream(last)) == OneStream(p) + Stream(init) + OneStream(last);
    }
  }

  lemma StreamLast(ps: seq<Put>, p: Put)
    ensures Stream(ps + [p]) == Stream(ps) + OneStream(p) && Stream([]) == [] && [] + OneStream(p) == OneStream(p)
  {
    hide OneStream;
    assert (ps + [p])[..|ps|] == ps;
  }

  /** A name ends where its end is marked. */
  lemma FirstTells(a: string, s: seq<Option<nat>>, b: string, t: seq<Option<nat>>)
    requires OneStream(Text(a)) + s == OneStream(Text(b)) + t
    ensures a == b && s == t
  {
    var x, y := OneStream(Text(a)) + s, OneStream(Text(b)) + t;
    assert forall k :: 0 <= k < |a| ==> x[k] == Some(a[k] as nat);
    assert forall k :: 0 <= k < |b| ==> y[k] == Some(b[k] as nat);
    assert x[|a|] == None && y[|b|] == None;
    assert |a| == |b|;
    forall k | 0 <= k < |a| ensures a[k] == b[k] { assert x[k] == y[k]; }
    assert x[|a| + 1..] == s && y[|b| + 1..] == t;
  }
}
