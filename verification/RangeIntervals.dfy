/** Objects whose code or data lies in several address ranges: the map from file-relative addresses to
    offsets within the object, and the search of the range list itself. */
module RangeIntervals {
  import opened Wrappers

  datatype Kind = RangeEntry | EndOfList

  datatype Range = Range(kind: Kind, addr1: nat, addr2: nat)

  /** A segment of the interval map, from lo up to but not including hi. */
  datatype Seg = Seg(lo: nat, hi: nat, val: nat)

  /** Ranges do not end before they begin, and an end-of-list entry is all zero and last. Base address
      selection entries are not supported. */
  predicate Usable(rs: seq<Range>) {
    forall k :: 0 <= k < |rs| ==>
      && rs[k].addr1 <= rs[k].addr2
      && (rs[k].kind == EndOfList ==> rs[k].addr1 == 0 && rs[k].addr2 == 0 && k == |rs| - 1)
  }

  predicate In(r: Range, a: nat) {
    r.addr1 <= a < r.addr2
  }

  predicate Disjoint(rs: seq<Range>) {
    forall i, j :: 0 <= i < j < |rs| && rs[i].addr1 < rs[i].addr2 && rs[j].addr1 < rs[j].addr2 ==>
      rs[i].addr2 <= rs[j].addr1 || rs[j].addr2 <= rs[i].addr1
  }

  /** The non-empty ranges come in the order of their addresses. */
  predicate AddressSorted(rs: seq<Range>) {
    forall i, j :: 0 <= i < j < |rs| && rs[i].addr1 < rs[i].addr2 && rs[j].addr1 < rs[j].addr2 ==>
      rs[i].addr2 <= rs[j].addr1
  }

  /** The bytes in the first k ranges. */
  function SizeBefore(rs: seq<Range>, k: nat): (n: nat)
    requires Usable(rs) && k <= |rs|
  {
    if k == 0 then 0 else SizeBefore(rs, k - 1) + (rs[k - 1].addr2 - rs[k - 1].addr1)
  }

  lemma {:induction false} SizeBeforeMono(rs: seq<Range>, i: nat, j: nat)
    requires Usable(rs) && i <= j <= |rs|
    ensures SizeBefore(rs, i) <= SizeBefore(rs, j)
  {
    if i < j { SizeBeforeMono(rs, i, j - 1); }
  }

  // ---- Interval maps ----

  ghost predicate Sorted(m: seq<Seg>) {
    && (forall i :: 0 <= i < |m| ==> m[i].lo < m[i].hi)
    && (forall i, j :: 0 <= i < j < |m| ==> m[i].hi <= m[j].lo)
  }

  /** Gives the value to those addresses that have none. */
  function FillGaps(m: seq<Seg>, lo: nat, hi: nat, v: nat): seq<Seg> {
    if lo >= hi then m
    else if m == [] then [Seg(lo, hi, v)]
    else if hi <= m[0].lo then [Seg(lo, hi, v)] + m
    else if m[0].hi <= lo then [m[0]] + FillGaps(m[1..], lo, hi, v)
    else (if lo < m[0].lo then [Seg(lo, m[0].lo, v)] else []) + [m[0]] + FillGaps(m[1..], m[0].hi, hi, v)
  }

  /** Touching segments with the same value become one. */
  function Joined(m: seq<Seg>): seq<Seg>
    decreases |m|
  {
    if |m| < 2 then m
    else if m[0].hi == m[1].lo && m[0].val == m[1].val then Joined([Seg(m[0].lo, m[1].hi, m[0].val)] + m[2..])
    else [m[0]] + Joined(m[1..])
  }

  /** Insertion into an interval map; a zero value is not stored. */
  function Insert(m: seq<Seg>, lo: nat, hi: nat, v: nat): seq<Seg> {
    if v == 0 then m else Joined(FillGaps(m, lo, hi, v))
  }

  function FindSeg(m: seq<Seg>, a: nat): Option<Seg> {
    if m == [] then None else if m[0].lo <= a < m[0].hi then Some(m[0]) else FindSeg(m[1..], a)
  }

  function Put(m: seq<Seg>, p: nat, s: Seg): seq<Seg>
    requires p <= |m|
  {
    m[..p] + [s] + m[p..]
  }

  lemma PutAfterFirst(m: seq<Seg>, q: nat, s: Seg)
    requires q < |m|
    ensures Put(m, q + 1, s) == [m[0]] + Put(m[1..], q, s)
  {
  }

  lemma {:induction false} FillsOneGap(m: seq<Seg>, lo: nat, hi: nat, v: nat) returns (p: nat)
    requires Sorted(m) && lo < hi && forall i :: 0 <= i < |m| ==> m[i].hi <= lo || hi <= m[i].lo
    ensures p <= |m| && FillGaps(m, lo, hi, v) == Put(m, p, Seg(lo, hi, v))
    ensures forall i :: 0 <= i < p ==> m[i].hi <= lo
    ensures forall i :: p <= i < |m| ==> hi <= m[i].lo
  {
    if m == [] || hi <= m[0].lo {
      p := 0;
      assert Put(m, 0, Seg(lo, hi, v)) == [Seg(lo, hi, v)] + m;
    } else {
      hide Put;
      var rest := m[1..];
      var q: nat := FillsOneGap(rest, lo, hi, v);
      p := q + 1;
      PutAfterFirst(m, q, Seg(lo, hi, v));
      forall i | 0 <= i < |m| ensures if i < p then m[i].hi <= lo else hi <= m[i].lo {
        assert i > 0 ==> m[i] == rest[i - 1];
      }
    }
  }

  lemma {:induction false} NothingToJoin(m: seq<Seg>)
    requires forall i, j :: 0 <= i < j < |m| ==> m[i].val != m[j].val
    ensures Joined(m) == m
  {
    if |m| >= 2 {
      NothingToJoin(m[1..]);
    }
  }

  lemma {:induction false} FindSegFinds(m: seq<Seg>, a: nat, i: nat)
    requires Sorted(m) && i < |m| && m[i].lo <= a < m[i].hi
    ensures FindSeg(m, a) == Some(m[i])
  {
    if i > 0 {
      FindSegFinds(m[1..], a, i - 1);
    }
  }

  lemma {:induction false} FindSegIsSound(m: seq<Seg>, a: nat) returns (i: nat)
    requires FindSeg(m, a).Some?
    ensures i < |m| && FindSeg(m, a) == Some(m[i]) && m[i].lo <= a < m[i].hi
  {
    if m[0].lo <= a < m[0].hi {
      i := 0;
    } else {
      i := FindSegIsSound(m[1..], a);
      i := i + 1;
    }
  }

  /** The value an address has. */
  function ValueAt(m: seq<Seg>, a: nat): Option<nat> {
    if m == [] then None else if m[0].lo <= a < m[0].hi then Some(m[0].val) else ValueAt(m[1..], a)
  }

  /** Sorted, and from b on. */
  ghost predicate SortedFrom(m: seq<Seg>, b: nat) {
    m != [] ==> b <= m[0].lo < m[0].hi && SortedFrom(m[1..], m[0].hi)
  }

  lemma {:induction false} BelowNothing(m: seq<Seg>, b: nat, a: nat)
    requires SortedFrom(m, b) && a < b
    ensures ValueAt(m, a).None?
  {
    if m != [] { BelowNothing(m[1..], m[0].hi, a); }
  }

  lemma ConsAt(s: Seg, m: seq<Seg>, b: nat, a: nat)
    ensures SortedFrom([s] + m, b) <==> b <= s.lo < s.hi && SortedFrom(m, s.hi)
    ensures ValueAt([s] + m, a) == if s.lo <= a < s.hi then Some(s.val) else ValueAt(m, a)
  {
    assert ([s] + m)[1..] == m;
  }

  /** Addresses that had a value keep it; the others in the interval get the new one. */
  lemma {:induction false} FillGapsAt(m: seq<Seg>, b: nat, lo: nat, hi: nat, v: nat, a: nat)
    requires SortedFrom(m, b) && b <= lo
    ensures SortedFrom(FillGaps(m, lo, hi, v), b)
    ensures ValueAt(FillGaps(m, lo, hi, v), a)
            == if ValueAt(m, a).Some? then ValueAt(m, a) else if lo <= a < hi then Some(v) else None
  {
    if lo >= hi {
    } else if m == [] {
      assert FillGaps(m, lo, hi, v) == [Seg(lo, hi, v)] + m;
      ConsAt(Seg(lo, hi, v), m, b, a);
    } else if hi <= m[0].lo {
      ConsAt(Seg(lo, hi, v), m, b, a);
      if a < hi { BelowNothing(m, m[0].lo, a); }
    } else {
      var from := if m[0].hi <= lo then lo else m[0].hi;
      FillGapsAt(m[1..], m[0].hi, from, hi, v, a);
      FillAroundFirst(m, b, lo, hi, v, a, from);
    }
  }

  lemma FillAroundFirst(m: seq<Seg>, b: nat, lo: nat, hi: nat, v: nat, a: nat, from: nat)
    requires SortedFrom(m, b) && b <= lo < hi && m != [] && hi > m[0].lo
    requires from == if m[0].hi <= lo then lo else m[0].hi
    requires var f := FillGaps(m[1..], from, hi, v);
             && SortedFrom(f, m[0].hi)
             && ValueAt(f, a) == if ValueAt(m[1..], a).Some? then ValueAt(m[1..], a)
               else if from <= a < hi then Some(v) else None
    ensures SortedFrom(FillGaps(m, lo, hi, v), b)
    ensures ValueAt(FillGaps(m, lo, hi, v), a)
            == if ValueAt(m, a).Some? then ValueAt(m, a) else if lo <= a < hi then Some(v) else None
  {
    hide ValueAt, SortedFrom;
    var f := FillGaps(m[1..], from, hi, v);
    assert m == [m[0]] + m[1..];
    ConsAt(m[0], m[1..], b, a);
    ConsAt(m[0], f, b, a);
    ConsAt(m[0], f, m[0].lo, a);
    if a < m[0].hi { BelowNothing(m[1..], m[0].hi, a); }
    if lo < m[0].lo {
      var s := Seg(lo, m[0].lo, v);
      assert [s] + [m[0]] + f == [s] + ([m[0]] + f);
      ConsAt(s, [m[0]] + f, b, a);
    } else {
      assert [] + [m[0]] + f == [m[0]] + f;
    }
  }

  /** Joining changes no value. */
  lemma {:induction false} JoinedAt(m: seq<Seg>, b: nat, a: nat)
    requires SortedFrom(m, b)
    ensures SortedFrom(Joined(m), b) && ValueAt(Joined(m), a) == ValueAt(m, a)
    decreases |m|
  {
    if |m| >= 2 {
      assert m[1..][1..] == m[2..];
      if m[0].hi == m[1].lo && m[0].val == m[1].val {
        var s := Seg(m[0].lo, m[1].hi, m[0].val);
        assert ([s] + m[2..])[1..] == m[2..];
        JoinedAt([s] + m[2..], b, a);
      } else {
        JoinedAt(m[1..], m[0].hi, a);
      }
    }
  }

  lemma InsertAt(m: seq<Seg>, lo: nat, hi: nat, v: nat, a: nat)
    requires SortedFrom(m, 0)
    ensures SortedFrom(Insert(m, lo, hi, v), 0)
    ensures ValueAt(Insert(m, lo, hi, v), a)
            == if ValueAt(m, a).Some? then ValueAt(m, a) else if lo <= a < hi && v > 0 then Some(v) else None
  {
    FillGapsAt(m, 0, lo, hi, v, a);
    JoinedAt(FillGaps(m, lo, hi, v), 0, a);
  }

  // ---- From ranges to intervals ----

  /** The segment for the k-th range: its value is where the range ends within the object. */
  function SegOf(rs: seq<Range>, k: nat): Seg
    requires Usable(rs) && k < |rs|
  {
    Seg(rs[k].addr1, rs[k].addr2, SizeBefore(rs, k + 1))
  }

  /** One segment for each of the first n ranges that is not empty, and no other. */
  ghost predicate IsTable(m: seq<Seg>, rs: seq<Range>, n: nat)
    requires Usable(rs) && n <= |rs|
  {
    && Sorted(m)
    && (forall k :: 0 <= k < n && rs[k].addr1 < rs[k].addr2 ==> Stored(m, SegOf(rs, k)))
    && (forall i :: 0 <= i < |m| ==> OfRange(rs, n, m[i]))
  }

  ghost predicate Stored(m: seq<Seg>, s: Seg) {
    exists i :: 0 <= i < |m| && m[i] == s
  }

  ghost predicate OfRange(rs: seq<Range>, n: nat, s: Seg)
    requires Usable(rs) && n <= |rs|
  {
    exists k :: 0 <= k < n && rs[k].addr1 < rs[k].addr2 && s == SegOf(rs, k)
  }

  ghost predicate Distinct(m: seq<Seg>, bound: nat) {
    && (forall i, j :: 0 <= i < j < |m| ==> m[i].val != m[j].val)
    && (forall i :: 0 <= i < |m| ==> m[i].val <= bound)
  }

  lemma InsertKeepsTable(m: seq<Seg>, rs: seq<Range>, n: nat)
    requires Usable(rs) && Disjoint(rs) && n < |rs| && rs[n].addr1 < rs[n].addr2
    requires IsTable(m, rs, n) && Distinct(m, SizeBefore(rs, n))
    ensures var m' := Insert(m, rs[n].addr1, rs[n].addr2, SizeBefore(rs, n + 1));
            IsTable(m', rs, n + 1) && Distinct(m', SizeBefore(rs, n + 1))
  {
    hide FillGaps, Joined;
    forall i | 0 <= i < |m| ensures m[i].hi <= rs[n].addr1 || rs[n].addr2 <= m[i].lo {
      assert OfRange(rs, n, m[i]);
    }
    InsertIsPut(m, SegOf(rs, n), rs, n);
  }

  lemma InsertIsPut(m: seq<Seg>, s: Seg, rs: seq<Range>, n: nat)
    requires Usable(rs) && n < |rs| && rs[n].addr1 < rs[n].addr2 && s == SegOf(rs, n)
    requires IsTable(m, rs, n) && Distinct(m, SizeBefore(rs, n))
    requires forall i :: 0 <= i < |m| ==> m[i].hi <= s.lo || s.hi <= m[i].lo
    ensures IsTable(Insert(m, s.lo, s.hi, s.val), rs, n + 1) && Distinct(Insert(m, s.lo, s.hi, s.val), s.val)
  {
    hide FillGaps, Joined, Put, Usable, OfRange, Stored;
    var p := FillsOneGap(m, s.lo, s.hi, s.val);
    PutIsSorted(m, p, s);
    PutIsDistinct(m, p, s);
    NothingToJoin(Put(m, p, s));
    PutKeeps(m, p, rs, n);
    assert FillGaps(m, s.lo, s.hi, s.val) == Put(m, p, s);
  }

  lemma PutIsSorted(m: seq<Seg>, p: nat, s: Seg)
    requires Sorted(m) && p <= |m| && s.lo < s.hi
    requires forall i :: 0 <= i < p ==> m[i].hi <= s.lo
    requires forall i :: p <= i < |m| ==> s.hi <= m[i].lo
    ensures Sorted(Put(m, p, s))
  {
  }

  lemma PutIsDistinct(m: seq<Seg>, p: nat, s: Seg)
    requires p <= |m| && forall i :: 0 <= i < |m| ==> m[i].val < s.val
    requires forall i, j :: 0 <= i < j < |m| ==> m[i].val != m[j].val
    ensures Distinct(Put(m, p, s), s.val)
  {
  }

  lemma PutKeeps(m: seq<Seg>, p: nat, rs: seq<Range>, n: nat)
    requires Usable(rs) && n < |rs| && rs[n].addr1 < rs[n].addr2 && IsTable(m, rs, n) && p <= |m|
    requires Sorted(Put(m, p, SegOf(rs, n)))
    ensures IsTable(Put(m, p, SegOf(rs, n)), rs, n + 1)
  {
    hide Sorted, SegOf, Usable;
    var m' := Put(m, p, SegOf(rs, n));
    forall k | 0 <= k < n + 1 && rs[k].addr1 < rs[k].addr2 ensures Stored(m', SegOf(rs, k)) {
      if k < n {
        var i :| 0 <= i < |m| && m[i] == SegOf(rs, k);
        assert m'[if i < p then i else i + 1] == m[i];
      } else {
        assert m'[p] == SegOf(rs, n);
      }
    }
    forall i | 0 <= i < |m'| ensures OfRange(rs, n + 1, m'[i]) {
      if i != p {
        assert m'[i] == m[if i < p then i else i - 1];
        assert OfRange(rs, n, m'[i]);
      } else {
        assert m'[p] == SegOf(rs, n);
      }
    }
  }

  /** Where the first of the n ranges that covers the address ends within the object. */
  ghost predicate FirstCovers(v: Option<nat>, rs: seq<Range>, n: nat, a: nat)
    requires Usable(rs) && n <= |rs|
  {
    if v.None? then forall k :: 0 <= k < n ==> !In(rs[k], a)
    else exists k :: 0 <= k < n && In(rs[k], a) && v.value == SizeBefore(rs, k + 1) && forall j :: 0 <= j < k ==>
        !In(rs[j], a)
  }

  ghost predicate HasValues(m: seq<Seg>, rs: seq<Range>, n: nat)
    requires Usable(rs) && n <= |rs|
  {
    SortedFrom(m, 0) && forall a: nat :: FirstCovers(ValueAt(m, a), rs, n, a)
  }

  lemma CoversMore(v: Option<nat>, rs: seq<Range>, n: nat, a: nat)
    requires Usable(rs) && n < |rs| && FirstCovers(v, rs, n, a)
    ensures FirstCovers(if v.Some? || !In(rs[n], a) then v else Some(SizeBefore(rs, n + 1)), rs, n + 1, a)
  {
  }

  lemma InsertKeepsValues(m: seq<Seg>, rs: seq<Range>, n: nat)
    requires Usable(rs) && n < |rs| && rs[n].addr1 < rs[n].addr2 && HasValues(m, rs, n)
    ensures HasValues(Insert(m, rs[n].addr1, rs[n].addr2, SizeBefore(rs, n + 1)), rs, n + 1)
  {
    hide Insert, ValueAt, FirstCovers, SortedFrom;
    var m' := Insert(m, rs[n].addr1, rs[n].addr2, SizeBefore(rs, n + 1));
    InsertAt(m, rs[n].addr1, rs[n].addr2, SizeBefore(rs, n + 1), 0);
    forall a: nat ensures FirstCovers(ValueAt(m', a), rs, n + 1, a) {
      InsertAt(m, rs[n].addr1, rs[n].addr2, SizeBefore(rs, n + 1), a);
      CoversMore(ValueAt(m, a), rs, n, a);
    }
  }

  /** The intervals of an object given by a range list. Of ranges that overlap, the first one counts. */
  method FileRelativeIntervals(rs: seq<Range>) returns (m: seq<Seg>)
    requires Usable(rs)
    ensures HasValues(m, rs, |rs|)
    ensures Disjoint(rs) ==> IsTable(m, rs, |rs|)
  {
    m := [];
    var cumulative := 0;
    var k := 0;
    while k < |rs|
      invariant 0 <= k <= |rs| && cumulative == SizeBefore(rs, k)
      invariant HasValues(m, rs, k)
      invariant Disjoint(rs) ==> IsTable(m, rs, k) && Distinct(m, cumulative)
    {
      hide IsTable, Distinct, HasValues, Disjoint, Insert;
      if rs[k].addr1 == rs[k].addr2 {
        SkipKeepsTable(m, rs, k);
      } else {
        cumulative := cumulative + (rs[k].addr2 - rs[k].addr1);
        InsertKeepsValues(m, rs, k);
        if Disjoint(rs) { InsertKeepsTable(m, rs, k); }
        m := Insert(m, rs[k].addr1, rs[k].addr2, cumulative);
      }
      k := k + 1;
    }
  }

  lemma SkipKeepsTable(m: seq<Seg>, rs: seq<Range>, n: nat)
    requires Usable(rs) && n < |rs| && rs[n].addr1 == rs[n].addr2
    ensures IsTable(m, rs, n) ==> IsTable(m, rs, n + 1)
    ensures HasValues(m, rs, n) ==> HasValues(m, rs, n + 1)
  {
    hide SegOf, Sorted, SortedFrom, ValueAt;
    forall a: nat ensures FirstCovers(ValueAt(m, a), rs, n, a) ==> FirstCovers(ValueAt(m, a), rs, n + 1, a) {
      if FirstCovers(ValueAt(m, a), rs, n, a) { CoversMore(ValueAt(m, a), rs, n, a); }
    }
  }

  datatype Offset = NotSpanned | Offset(value: int)

  /** The offset of an address within the object. */
  function SpansAddr(m: seq<Seg>, a: nat): Offset {
    var found := FindSeg(m, a);
    if found.Some? then Offset(found.value.val - (found.value.hi - found.value.lo) + (a - found.value.lo))
      else NotSpanned
  }

  lemma SpansInside(m: seq<Seg>, rs: seq<Range>, k: nat, a: nat)
    requires Usable(rs) && IsTable(m, rs, |rs|) && k < |rs| && In(rs[k], a)
    ensures SpansAddr(m, a).Offset? && SpansAddr(m, a).value == SizeBefore(rs, k) + (a - rs[k].addr1)
  {
    assert Stored(m, SegOf(rs, k));
    var i: nat :| i < |m| && m[i] == SegOf(rs, k);
    FindSegFinds(m, a, i);
  }

  lemma SpansOnlyCovered(m: seq<Seg>, rs: seq<Range>, a: nat) returns (k: nat)
    requires Usable(rs) && IsTable(m, rs, |rs|) && SpansAddr(m, a).Offset?
    ensures k < |rs| && In(rs[k], a)
  {
    var i := FindSegIsSound(m, a);
    assert OfRange(rs, |rs|, m[i]);
    k :| 0 <= k < |rs| && rs[k].addr1 < rs[k].addr2 && m[i] == SegOf(rs, k);
  }

  /** Covered addresses, and no others, have offsets. */
  lemma SpansIffCovered(m: seq<Seg>, rs: seq<Range>, a: nat)
    requires Usable(rs) && IsTable(m, rs, |rs|)
    ensures SpansAddr(m, a).Offset? <==> exists k :: 0 <= k < |rs| && In(rs[k], a)
  {
    if k: nat :| k < |rs| && In(rs[k], a) {
      SpansInside(m, rs, k, a);
    }
    if SpansAddr(m, a).Offset? {
      var i: nat := SpansOnlyCovered(m, rs, a);
    }
  }

  lemma SpansBelowTotal(m: seq<Seg>, rs: seq<Range>, a: nat) returns (i: nat)
    requires Usable(rs) && IsTable(m, rs, |rs|) && SpansAddr(m, a).Offset?
    ensures i < |rs| && In(rs[i], a) && SpansAddr(m, a).value == SizeBefore(rs, i) + (a - rs[i].addr1)
    ensures SizeBefore(rs, i) <= SpansAddr(m, a).value < SizeBefore(rs, i + 1) <= SizeBefore(rs, |rs|)
  {
    i := SpansOnlyCovered(m, rs, a);
    SpansInside(m, rs, i, a);
    SizeBeforeMono(rs, i + 1, |rs|);
  }

  /** No two addresses share an offset. */
  lemma SpansIsInjective(m: seq<Seg>, rs: seq<Range>, a: nat, b: nat)
    requires Usable(rs) && IsTable(m, rs, |rs|) && SpansAddr(m, a).Offset? && SpansAddr(m, a) == SpansAddr(m, b)
    ensures a == b
  {
    var i: nat := SpansBelowTotal(m, rs, a);
    var j: nat := SpansBelowTotal(m, rs, b);
    PlaceIsUnique(rs, i, j, SpansAddr(m, a).value);
  }

  lemma PlaceIsUnique(rs: seq<Range>, i: nat, j: nat, o: int)
    requires Usable(rs) && i < |rs| && j < |rs|
    requires SizeBefore(rs, i) <= o < SizeBefore(rs, i + 1) && SizeBefore(rs, j) <= o < SizeBefore(rs, j + 1)
    ensures i == j
  {
    if i < j {
      SizeBeforeMono(rs, i + 1, j);
    } else if j < i {
      SizeBeforeMono(rs, j + 1, i);
    }
  }

  /** Every offset below the total size is that of an address. */
  lemma SpansIsSurjective(m: seq<Seg>, rs: seq<Range>, o: nat)
    requires Usable(rs) && IsTable(m, rs, |rs|) && o < SizeBefore(rs, |rs|)
    ensures exists a: nat :: SpansAddr(m, a) == Offset(o)
  {
    var k: nat := FindPlace(rs, o);
    var a := rs[k].addr1 + (o - SizeBefore(rs, k));
    SpansInside(m, rs, k, a);
    assert SpansAddr(m, a) == Offset(o);
  }

  lemma FindPlace(rs: seq<Range>, o: nat) returns (k: nat)
    requires Usable(rs) && o < SizeBefore(rs, |rs|)
    ensures k < |rs| && SizeBefore(rs, k) <= o < SizeBefore(rs, k + 1)
  {
    k := |rs|;
    while SizeBefore(rs, k) > o
      decreases k
      invariant k <= |rs| && (k == |rs| || o < SizeBefore(rs, k + 1))
    {
      k := k - 1;
    }
  }

  // ---- Searching the range list ----

  /** How many addresses below b one range covers. */
  function Part(r: Range, b: nat): nat
    requires r.addr1 <= r.addr2
  {
    if b <= r.addr1 then 0 else if b <= r.addr2 then b - r.addr1 else r.addr2 - r.addr1
  }

  /** How many addresses below b the first n ranges cover. */
  function CoveredBelow(rs: seq<Range>, n: nat, b: nat): nat
    requires Usable(rs) && n <= |rs|
  {
    if n == 0 then 0 else CoveredBelow(rs, n - 1, b) + Part(rs[n - 1], b)
  }

  /** It is a count: it grows by one at each covered address and nowhere else. */
  lemma {:induction false} CoveredBelowCounts(rs: seq<Range>, n: nat, b: nat)
    requires Usable(rs) && Disjoint(rs) && n <= |rs|
    ensures CoveredBelow(rs, n, 0) == 0
    ensures CoveredBelow(rs, n, b + 1)
            == CoveredBelow(rs, n, b) + if exists k :: 0 <= k < n && In(rs[k], b) then 1 else 0
  {
    if n > 0 {
      CoveredBelowCounts(rs, n - 1, b);
      if In(rs[n - 1], b) {
        assert forall k :: 0 <= k < n - 1 ==> !In(rs[k], b);
      } else {
        assert (exists k :: 0 <= k < n - 1 && In(rs[k], b)) <==> (exists k :: 0 <= k < n && In(rs[k], b));
      }
    }
  }

  lemma {:induction false} CoveredBelowMono(rs: seq<Range>, n: nat, b: nat, c: nat)
    requires Usable(rs) && n <= |rs| && b <= c
    ensures CoveredBelow(rs, n, b) <= CoveredBelow(rs, n, c)
  {
    if n > 0 { CoveredBelowMono(rs, n - 1, b, c); }
  }

  lemma {:induction false} CoveredAtMost(rs: seq<Range>, b: nat)
    requires Usable(rs) && Disjoint(rs)
    ensures CoveredBelow(rs, |rs|, b) <= b
  {
    CoveredBelowCounts(rs, |rs|, 0);
    if b > 0 {
      CoveredAtMost(rs, b - 1);
      CoveredBelowCounts(rs, |rs|, b - 1);
    }
  }

  lemma {:induction false} AllCovered(rs: seq<Range>, n: nat, b: nat)
    requires Usable(rs) && n <= |rs| && forall k :: 0 <= k < n ==> rs[k].addr2 <= b
    ensures CoveredBelow(rs, n, b) == SizeBefore(rs, n)
  {
    if n > 0 { AllCovered(rs, n - 1, b); }
  }

  /** Sizes do not overflow: a list of disjoint ranges has no more bytes than there are addresses. */
  lemma TotalFits(rs: seq<Range>, b: nat)
    requires Usable(rs) && Disjoint(rs) && forall k :: 0 <= k < |rs| ==> rs[k].addr2 <= b
    ensures SizeBefore(rs, |rs|) <= b
  {
    CoveredAtMost(rs, b);
    AllCovered(rs, |rs|, b);
  }

  /** Searches the list. The distance returned is always the length of the list. */
  method FindAddr(rs: seq<Range>, a: nat) returns (r: Option<(nat, nat)>)
    requires Usable(rs)
    ensures r.Some? <==> exists k :: 0 <= k < |rs| && In(rs[k], a)
    ensures r.Some? ==> r.value == (CoveredBelow(rs, |rs|, a), |rs|)
  {
    var found: Option<nat>, offset, dist := None, 0, 0;
    while dist < |rs|
      invariant 0 <= dist <= |rs| && offset == CoveredBelow(rs, dist, a)
      invariant found.Some? ==> found.value < dist && In(rs[found.value], a)
      invariant found.None? ==> forall k :: 0 <= k < dist ==> !In(rs[k], a)
    {
      if rs[dist].kind == RangeEntry {
        if rs[dist].addr1 <= a && a < rs[dist].addr2 {
          found := Some(dist);
          offset := offset + (a - rs[dist].addr1);
        } else if rs[dist].addr2 <= a {
          offset := offset + (rs[dist].addr2 - rs[dist].addr1);
        }
      }
      dist := dist + 1;
    }
    r := if found.Some? then Some((offset, dist)) else None;
  }

  /** The search of the list and the interval map agree on the address. */
  ghost predicate AgreeAt(rs: seq<Range>, m: seq<Seg>, a: nat)
    requires Usable(rs)
  {
    SpansAddr(m, a) == Offset(CoveredBelow(rs, |rs|, a))
  }

  lemma {:induction false} SortedPrefix(rs: seq<Range>, n: nat, k: nat, a: nat)
    requires Usable(rs) && AddressSorted(rs) && k < |rs| && n <= |rs| && In(rs[k], a)
    ensures CoveredBelow(rs, n, a) == if n <= k then SizeBefore(rs, n) else SizeBefore(rs, k) + (a - rs[k].addr1)
  {
    if n > 0 { SortedPrefix(rs, n - 1, k, a); }
  }

  /** More of the list is covered below a later range: at least all of the earlier one. */
  lemma {:induction false} EarlierCounts(rs: seq<Range>, n: nat, j: nat, b: nat)
    requires Usable(rs) && j < n <= |rs| && rs[j].addr2 <= b
    ensures CoveredBelow(rs, n, rs[j].addr1) + (rs[j].addr2 - rs[j].addr1) <= CoveredBelow(rs, n, b)
  {
    if j == n - 1 {
      CoveredBelowMono(rs, n - 1, rs[j].addr1, b);
    } else {
      EarlierCounts(rs, n - 1, j, b);
    }
  }

  /** They agree on every covered address exactly when the non-empty ranges are in address order. */
  lemma AgreeIffSorted(rs: seq<Range>, m: seq<Seg>)
    requires Usable(rs) && Disjoint(rs) && IsTable(m, rs, |rs|)
    ensures (forall k: nat, a: nat :: k < |rs| && In(rs[k], a) ==> AgreeAt(rs, m, a)) <==> AddressSorted(rs)
  {
    if AddressSorted(rs) {
      forall k: nat, a: nat | k < |rs| && In(rs[k], a) ensures AgreeAt(rs, m, a) {
        SpansInside(m, rs, k, a);
        SortedPrefix(rs, |rs|, k, a);
      }
    }
    if forall k: nat, a: nat :: k < |rs| && In(rs[k], a) ==> AgreeAt(rs, m, a) {
      forall i: nat, j: nat | i < j < |rs| && rs[i].addr1 < rs[i].addr2 && rs[j].addr1 < rs[j].addr2
        ensures rs[i].addr2 <= rs[j].addr1
      {
        InOrder(rs, m, i, j);
      }
    }
  }

  lemma InOrder(rs: seq<Range>, m: seq<Seg>, i: nat, j: nat)
    requires Usable(rs) && Disjoint(rs) && IsTable(m, rs, |rs|)
    requires i < j < |rs| && rs[i].addr1 < rs[i].addr2 && rs[j].addr1 < rs[j].addr2
    requires AgreeAt(rs, m, rs[i].addr1) && AgreeAt(rs, m, rs[j].addr1)
    ensures rs[i].addr2 <= rs[j].addr1
  {
    SpansInside(m, rs, i, rs[i].addr1);
    SpansInside(m, rs, j, rs[j].addr1);
    SizeBeforeMono(rs, i, j);
    if rs[j].addr2 <= rs[i].addr1 {
      EarlierCounts(rs, |rs|, j, rs[i].addr1);
      assert false;
    }
  }
}
