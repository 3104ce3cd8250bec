/** Rewriting a whole location list: each expression is kept for its own addresses, and rewritten for those
    of each row of the frame tables that it overlaps. */
module LoclistRewrite {
  import opened Wrappers
  import opened LocEval
  import opened CfaRewrite
  import T = FrameTable

  /** A frame description entry and its decoded table. */
  datatype Fde = Fde(lowPc: nat, funcLength: nat, rows: seq<T.Row>)

  /** A location list; the entries in order, with the place of the one for an address, or one past the last if
      there is none; and the search for paths in the graph of a row. */
  datatype Input = Input(l: seq<LocExpr>, fdes: seq<Fde>, findFde: nat -> nat, search: T.Defs -> Tree)

  // ---- The map from intervals to expressions ----

  predicate SameKey(x: LocExpr, y: LocExpr) {
    (x.lopc >= x.hipc && y.lopc >= y.hipc) || (x.lopc == y.lopc && x.hipc == y.hipc)
  }

  /** The order of intervals: by first and then last address, with the empty ones, all alike, at the front. */
  predicate KeyLess(x: LocExpr, y: LocExpr) {
    if x.lopc >= x.hipc then y.lopc < y.hipc
    else y.lopc < y.hipc && (x.lopc < y.lopc || (x.lopc == y.lopc && x.hipc < y.hipc))
  }

  function Put(m: seq<LocExpr>, e: LocExpr): seq<LocExpr> {
    if m == [] || KeyLess(e, m[0]) then [e] + m
    else if KeyLess(m[0], e) then [m[0]] + Put(m[1..], e)
    else [m[0].(ops := e.ops)] + m[1..]
  }

  ghost predicate HasInterval(m: seq<LocExpr>, lo: nat, hi: nat) {
    exists i :: 0 <= i < |m| && m[i].lopc == lo && m[i].hipc == hi
  }

  ghost predicate Has(m: seq<LocExpr>, e: LocExpr) {
    exists i :: 0 <= i < |m| && m[i] == e
  }

  lemma HasCons(x: LocExpr, m: seq<LocExpr>, e: LocExpr)
    ensures Has([x] + m, e) <==> x == e || Has(m, e)
  {
    var all := [x] + m;
    if Has(m, e) {
      var i :| 0 <= i < |m| && m[i] == e;
      assert all[i + 1] == e;
    }
    if x == e { assert all[0] == e; }
    if Has(all, e) && x != e {
      var i :| 0 <= i < |all| && all[i] == e;
      assert m[i - 1] == e;
    }
  }

  /** What is put is there; what was there stays, unless its interval was put. */
  lemma {:induction false} PutHas(m: seq<LocExpr>, e: LocExpr, x: LocExpr)
    requires e.lopc < e.hipc
    ensures Has(Put(m, e), e)
    ensures Has(Put(m, e), x) ==> x == e || Has(m, x)
    ensures Has(m, x) && !SameKey(x, e) ==> Has(Put(m, e), x)
  {
    hide Has;
    if m == [] || KeyLess(e, m[0]) {
      HasCons(e, m, e);
      HasCons(e, m, x);
    } else {
      var rest := m[1..];
      assert m == [m[0]] + rest;
      HasCons(m[0], rest, x);
      if KeyLess(m[0], e) {
        PutHas(rest, e, x);
        HasCons(m[0], Put(rest, e), e);
        HasCons(m[0], Put(rest, e), x);
      } else {
        assert m[0].(ops := e.ops) == e;
        HasCons(e, rest, e);
        HasCons(e, rest, x);
      }
    }
  }

  lemma PutHasInterval(m: seq<LocExpr>, e: LocExpr, lo: nat, hi: nat)
    requires e.lopc < e.hipc && (HasInterval(m, lo, hi) || (e.lopc == lo && e.hipc == hi))
    ensures HasInterval(Put(m, e), lo, hi)
  {
    hide Put;
    if e.lopc == lo && e.hipc == hi {
      PutHas(m, e, e);
    } else {
      var i :| 0 <= i < |m| && m[i].lopc == lo && m[i].hipc == hi;
      assert Has(m, m[i]);
      PutHas(m, e, m[i]);
    }
  }

  ghost predicate Sorted(m: seq<LocExpr>) {
    forall i, k :: 0 <= i < k < |m| ==> KeyLess(m[i], m[k])
  }

  lemma SortedCons(x: LocExpr, m: seq<LocExpr>)
    ensures Sorted([x] + m) <==> Sorted(m) && forall e :: Has(m, e) ==> KeyLess(x, e)
  {
    var all := [x] + m;
    assert forall i :: 0 <= i < |m| ==> all[i + 1] == m[i];
    if Sorted(all) {
      forall e | Has(m, e) ensures KeyLess(x, e) {
        var i :| 0 <= i < |m| && m[i] == e;
        assert KeyLess(all[0], all[i + 1]);
      }
      forall i, k | 0 <= i < k < |m| ensures KeyLess(m[i], m[k]) { assert KeyLess(all[i + 1], all[k + 1]); }
    }
    if Sorted(m) && forall e :: Has(m, e) ==> KeyLess(x, e) {
      forall i, k | 0 <= i < k < |all| ensures KeyLess(all[i], all[k]) {
        if i == 0 { assert Has(m, m[k - 1]); } else { assert KeyLess(m[i - 1], m[k - 1]); }
      }
    }
  }

  lemma {:induction false} PutIsSorted(m: seq<LocExpr>, e: LocExpr)
    requires Sorted(m)
    ensures Sorted(Put(m, e))
    ensures forall x :: Has(Put(m, e), x) ==> SameKey(x, e) || Has(m, x)
  {
    hide Has, Sorted;
    if m == [] {
      NothingSorted();
      SortedCons(e, []);
      forall x ensures Has([e] + [], x) ==> x == e || Has([], x) { HasCons(e, [], x); }
    } else {
      var rest := m[1..];
      assert m == [m[0]] + rest;
      SortedCons(m[0], rest);
      forall x ensures Has(m, x) <==> x == m[0] || Has(rest, x) { HasCons(m[0], rest, x); }
      if KeyLess(e, m[0]) {
        SortedCons(e, m);
        forall x ensures Has([e] + m, x) <==> x == e || Has(m, x) { HasCons(e, m, x); }
      } else if KeyLess(m[0], e) {
        PutIsSorted(rest, e);
        SortedCons(m[0], Put(rest, e));
        forall x ensures Has([m[0]] + Put(rest, e), x) <==> x == m[0] || Has(Put(rest, e), x) {
          HasCons(m[0], Put(rest, e), x);
        }
      } else {
        var n := m[0].(ops := e.ops);
        SortedCons(n, rest);
        forall x ensures Has([n] + rest, x) <==> x == n || Has(rest, x) { HasCons(n, rest, x); }
      }
    }
  }

  lemma NothingSorted()
    ensures Sorted([]) && forall x :: !Has([], x)
  {
  }

  // ---- What is in the map ----

  function Max(x: nat, y: nat): nat { if x < y then y else x }

  function Min(x: nat, y: nat): nat { if x < y then x else y }

  /** The search gives a tree of predecessors for any row. */
  ghost predicate Searches(search: T.Defs -> Tree) {
    forall defs: T.Defs :: IsTree(defs, search(defs))
  }

  ghost function SomeTree(defs: T.Defs): (t: Tree)
    ensures IsTree(defs, t)
  {
    SomeTreeExists(defs);
    var t :| IsTree(defs, t);
    t
  }

  lemma SomeTreeExists(defs: T.Defs)
    ensures exists t :: IsTree(defs, t)
  {
    var t := TreeExists(defs);
  }

  /** There is such a search. */
  lemma SearchExists()
    ensures exists search: T.Defs -> Tree :: Searches(search)
  {
    hide IsTree;
    var search: T.Defs -> Tree := (defs: T.Defs) => SomeTree(defs);
    assert Searches(search);
  }

  predicate IsRow(fdes: seq<Fde>, f: nat, r: nat) { f < |fdes| && r < |fdes[f].rows| }

  /** The row has addresses in common with the expression. */
  predicate Overlaps(e: LocExpr, row: T.Row) { Max(row.lo, e.lopc) < Min(row.hi, e.hipc) }

  /** An expression of the list rewritten for its common addresses with a row. */
  ghost function Rewritten(e: LocExpr, row: T.Row, search: T.Defs -> Tree): LocExpr
    requires Searches(search)
  {
    assert IsTree(row.defs, search(row.defs));
    LocExpr(Max(row.lo, e.lopc), Min(row.hi, e.hipc), RewriteOps(row.defs, search(row.defs), e.ops))
  }

  predicate Touches(e: LocExpr, fde: Fde) {
    Max(fde.lowPc, e.lopc) == Min(fde.lowPc + fde.funcLength + 1, e.hipc)
  }

  /** The entries from the one for the first address to the one for the last, up to one that only touches. */
  ghost predicate Visits(c: Input, e: LocExpr, f: nat) {
    && c.findFde(e.lopc) <= f < |c.fdes| && (c.findFde(e.hipc) >= |c.fdes| || f <= c.findFde(e.hipc))
    && forall g :: c.findFde(e.lopc) <= g <= f ==> !Touches(e, c.fdes[g])
  }

  predicate HasBreg(e: LocExpr) { exists k :: 0 <= k < |e.ops| && IsBreg(e.ops[k]) }

  /** The rewriting deals with the row: the expression refers to a register, and the entry is visited. */
  ghost predicate DealsWith(c: Input, e: LocExpr, f: nat, r: nat) {
    IsRow(c.fdes, f, r) && HasBreg(e) && Visits(c, e, f) && Overlaps(e, c.fdes[f].rows[r])
  }

  /** e is an expression of the list, or one rewritten for a row that is dealt with. */
  ghost predicate Derived(c: Input, e: LocExpr, j: nat)
    requires Searches(c.search)
  {
    && j < |c.l|
    && (e == c.l[j] || exists f: nat, r: nat :: DealsWith(c, c.l[j], f, r)
                                              && e == Rewritten(c.l[j], c.fdes[f].rows[r], c.search))
  }

  /** Every entry is derived from the list, and the first k of the list have one for all their addresses. */
  ghost predicate Faithful(c: Input, k: nat, m: seq<LocExpr>)
    requires k <= |c.l| && Searches(c.search)
  {
    && (forall e :: Has(m, e) ==> exists j: nat :: Derived(c, e, j))
    && (forall j :: 0 <= j < k ==> HasInterval(m, c.l[j].lopc, c.l[j].hipc))
  }

  /** The entry for the common addresses of the j-th expression and the r-th row is rewritten for a row. */
  ghost predicate Completed(c: Input, m: seq<LocExpr>, j: nat, f: nat, r: nat)
    requires j < |c.l| && IsRow(c.fdes, f, r) && Searches(c.search)
  {
    exists g: nat, q: nat ::
      && DealsWith(c, c.l[j], g, q) && Has(m, Rewritten(c.l[j], c.fdes[g].rows[q], c.search))
      && SameKey(Rewritten(c.l[j], c.fdes[g].rows[q], c.search), Rewritten(c.l[j], c.fdes[f].rows[r], c.search))
  }

  /** The list has proper intervals, which do not overlap and do not begin with an address that sets the base. */
  ghost predicate IsPlain(l: seq<LocExpr>) {
    && (forall j :: 0 <= j < |l| ==> l[j].lopc < l[j].hipc <= MAX_ADDR && !IsSelection(l[j].lopc))
    && (forall i, j :: 0 <= i < j < |l| ==> l[i].hipc <= l[j].lopc || l[j].hipc <= l[i].lopc)
  }

  lemma DerivedIsProper(c: Input, e: LocExpr, j: nat)
    requires Searches(c.search) && IsPlain(c.l) && Derived(c, e, j)
    ensures c.l[j].lopc <= e.lopc < e.hipc <= c.l[j].hipc
  {
    hide RewriteOps, IsTree;
  }

  lemma DerivedApart(c: Input, e: LocExpr, j: nat, x: LocExpr, k: nat)
    requires Searches(c.search) && IsPlain(c.l) && Derived(c, e, j) && Derived(c, x, k)
    ensures j != k ==> !SameKey(e, x)
  {
    DerivedIsProper(c, e, j);
    DerivedIsProper(c, x, k);
  }

  lemma PutIsFaithful(c: Input, k: nat, m: seq<LocExpr>, e: LocExpr, j: nat)
    requires Searches(c.search) && IsPlain(c.l) && k <= |c.l| && Faithful(c, k, m) && Derived(c, e, j)
    ensures Faithful(c, k, Put(m, e))
    ensures k < |c.l| && e == c.l[k] ==> Faithful(c, k + 1, Put(m, e))
  {
    hide Has, Derived;
    DerivedIsProper(c, e, j);
    forall x | Has(Put(m, e), x) ensures exists i: nat :: Derived(c, x, i) {
      PutHas(m, e, x);
    }
    forall i | 0 <= i < k ensures HasInterval(Put(m, e), c.l[i].lopc, c.l[i].hipc) {
      PutHasInterval(m, e, c.l[i].lopc, c.l[i].hipc);
    }
    if k < |c.l| && e == c.l[k] {
      PutHasInterval(m, e, c.l[k].lopc, c.l[k].hipc);
    }
  }

  /** Putting an expression of the list does not undo what was done for the others, and putting one that is
      rewritten undoes nothing. */
  lemma PutKeepsCompleted(c: Input, m: seq<LocExpr>, e: LocExpr, j: nat, k: nat, f: nat, r: nat)
    requires Searches(c.search) && IsPlain(c.l) && Derived(c, e, j) && k < |c.l| && IsRow(c.fdes, f, r)
    requires Completed(c, m, k, f, r)
    requires k != j || exists g: nat, q: nat ::
             DealsWith(c, c.l[j], g, q) && e == Rewritten(c.l[j], c.fdes[g].rows[q], c.search)
    ensures Completed(c, Put(m, e), k, f, r)
  {
    hide Has, Rewritten;
    DerivedIsProper(c, e, j);
    var g: nat, q: nat :|
      && DealsWith(c, c.l[k], g, q) && Has(m, Rewritten(c.l[k], c.fdes[g].rows[q], c.search))
      && SameKey(Rewritten(c.l[k], c.fdes[g].rows[q], c.search), Rewritten(c.l[k], c.fdes[f].rows[r], c.search));
    var x := Rewritten(c.l[k], c.fdes[g].rows[q], c.search);
    assert Derived(c, x, k);
    DerivedIsProper(c, x, k);
    PutHas(m, e, x);
    PutHas(m, e, e);
    if SameKey(x, e) { DerivedApart(c, x, k, e, j); }
  }

  lemma PutCompletes(c: Input, m: seq<LocExpr>, j: nat, f: nat, r: nat)
    requires Searches(c.search) && IsPlain(c.l) && j < |c.l| && DealsWith(c, c.l[j], f, r)
    ensures Derived(c, Rewritten(c.l[j], c.fdes[f].rows[r], c.search), j)
    ensures Completed(c, Put(m, Rewritten(c.l[j], c.fdes[f].rows[r], c.search)), j, f, r)
  {
    hide Has, RewriteOps, IsTree;
    var e := Rewritten(c.l[j], c.fdes[f].rows[r], c.search);
    DerivedIsProper(c, e, j);
    PutHas(m, e, e);
  }

  // ---- The rewriting ----

  /** Each reference to a register is to one that a path from the frame address reaches, or to one outside
      the graph of the row. */
  ghost predicate AllReached(c: Input) {
    forall j: nat, f: nat, r: nat :: j < |c.l| && IsRow(c.fdes, f, r) ==>
      CanRewrite(c.fdes[f].rows[r].defs, c.search(c.fdes[f].rows[r].defs), c.l[j].ops)
  }

  ghost predicate InOrder(fdes: seq<Fde>) {
    forall f, g :: 0 <= f < g < |fdes| ==> fdes[f].lowPc <= fdes[g].lowPc
  }

  /** All that is in the map stays right, and all that was done for other expressions, or for this one. */
  ghost predicate Extends(c: Input, m: seq<LocExpr>, n: seq<LocExpr>)
    requires Searches(c.search)
  {
    && (forall k: nat :: k <= |c.l| && Faithful(c, k, m) ==> Faithful(c, k, n))
    && (forall k: nat, f: nat, r: nat :: k < |c.l| && IsRow(c.fdes, f, r) && Completed(c, m, k, f, r) ==>
          Completed(c, n, k, f, r))
  }

  ghost predicate RowCompleted(c: Input, m: seq<LocExpr>, j: nat, f: nat, r: nat)
    requires j < |c.l| && Searches(c.search)
  {
    IsRow(c.fdes, f, r) && Overlaps(c.l[j], c.fdes[f].rows[r]) ==> Completed(c, m, j, f, r)
  }

  lemma PutExtends(c: Input, m: seq<LocExpr>, j: nat, f: nat, r: nat)
    requires Searches(c.search) && IsPlain(c.l) && j < |c.l| && DealsWith(c, c.l[j], f, r)
    ensures var n := Put(m, Rewritten(c.l[j], c.fdes[f].rows[r], c.search));
            Extends(c, m, n) && Completed(c, n, j, f, r)
  {
    hide Faithful, Completed, Derived, IsPlain, Rewritten, Overlaps, Put;
    var e := Rewritten(c.l[j], c.fdes[f].rows[r], c.search);
    var n := Put(m, e);
    PutCompletes(c, m, j, f, r);
    forall k: nat | k <= |c.l| && Faithful(c, k, m) ensures Faithful(c, k, n) {
      PutIsFaithful(c, k, m, e, j);
    }
    forall k: nat, g: nat, q: nat | k < |c.l| && IsRow(c.fdes, g, q) && Completed(c, m, k, g, q)
      ensures Completed(c, n, k, g, q)
    {
      PutKeepsCompleted(c, m, e, j, k, g, q);
    }
  }

  lemma ExtendsKeepsRows(c: Input, m: seq<LocExpr>, n: seq<LocExpr>, j: nat)
    requires Searches(c.search) && j < |c.l| && Extends(c, m, n)
    ensures forall f: nat, q: nat :: RowCompleted(c, m, j, f, q) ==> RowCompleted(c, n, j, f, q)
  {
    hide Completed, Faithful, Overlaps;
  }

  lemma ExtendsKeepsComplete(c: Input, k: nat,
                             m: seq<LocExpr>, n: seq<LocExpr>)
    requires Searches(c.search) && k <= |c.l| && Extends(c, m, n) && Complete(c, k, m)
    ensures Complete(c, k, n)
  {
    hide Extends, RowCompleted, Visits, HasBreg;
    forall j: nat, f: nat, r: nat | j < k && HasBreg(c.l[j]) && Visits(c, c.l[j], f)
      ensures RowCompleted(c, n, j, f, r)
    {
      ExtendsKeepsRows(c, m, n, j);
    }
  }

  /** Rewrites one expression over the rows of one frame description entry. */
  method RewriteOverRows(c: Input, j: nat, f: nat, m: seq<LocExpr>)
    returns (r: Option<seq<LocExpr>>)
    requires j < |c.l| && HasBreg(c.l[j]) && Visits(c, c.l[j], f) && Searches(c.search)
    ensures AllReached(c) ==> r.Some?
    ensures r.Some? && Sorted(m) ==> Sorted(r.value)
    ensures r.Some? && IsPlain(c.l) ==>
              Extends(c, m, r.value) && forall q: nat :: RowCompleted(c, r.value, j, f, q)
  {
    hide IsPlain, CanRewrite, RewriteOps, IsTree, Completed, Faithful, Sorted;
    var out, i := m, 0;
    var rows := c.fdes[f].rows;
    while i < |rows|
      invariant 0 <= i <= |rows|
      invariant Sorted(m) ==> Sorted(out)
      invariant IsPlain(c.l) ==> Extends(c, m, out)
      invariant IsPlain(c.l) ==> forall q: nat :: q < i ==> RowCompleted(c, out, j, f, q)
    {
      if Overlaps(c.l[j], rows[i]) {
        assert IsRow(c.fdes, f, i) && IsTree(rows[i].defs, c.search(rows[i].defs));
        var ops := RewriteExpr(rows[i].defs, c.search(rows[i].defs), c.l[j].ops);
        if ops.None? {
          return None;
        }
        if IsPlain(c.l) {
          PutExtends(c, out, j, f, i);
          ExtendsKeepsRows(c, out, Put(out, Rewritten(c.l[j], rows[i], c.search)), j);
        }
        var e := LocExpr(Max(rows[i].lo, c.l[j].lopc), Min(rows[i].hi, c.l[j].hipc), ops.value);
        if Sorted(out) { PutIsSorted(out, e); }
        out := Put(out, e);
      }
      i := i + 1;
    }
    return Some(out);
  }

  /** Rewrites one expression over the frame description entries from the one for its first address on. */
  method RewriteOverFdes(c: Input, j: nat, m: seq<LocExpr>)
    returns (r: Option<seq<LocExpr>>)
    requires j < |c.l| && HasBreg(c.l[j]) && Searches(c.search)
    ensures AllReached(c) && InOrder(c.fdes) ==> r.Some?
    ensures r.Some? && Sorted(m) ==> Sorted(r.value)
    ensures r.Some? && IsPlain(c.l) ==>
              && Extends(c, m, r.value)
              && forall f: nat, q: nat :: Visits(c, c.l[j], f) ==> RowCompleted(c, r.value, j, f, q)
  {
    hide IsPlain, AllReached, Completed, Faithful, Touches, Overlaps, IsTree, Sorted;
    var out, prevLowPc := m, 0;
    var endFde := c.findFde(c.l[j].hipc);
    var i := c.findFde(c.l[j].lopc);
    while i < |c.fdes| && (endFde >= |c.fdes| || i <= endFde)
      invariant c.findFde(c.l[j].lopc) <= i
      invariant forall g :: c.findFde(c.l[j].lopc) <= g < i ==> g < |c.fdes| && !Touches(c.l[j], c.fdes[g])
      invariant Sorted(m) ==> Sorted(out)
      invariant IsPlain(c.l) ==> Extends(c, m, out)
      invariant IsPlain(c.l) ==> forall f: nat, q: nat :: c.findFde(c.l[j].lopc) <= f < i ==>
                  RowCompleted(c, out, j, f, q)
      invariant prevLowPc == 0 || (0 < i <= |c.fdes| && prevLowPc == c.fdes[i - 1].lowPc)
    {
      if c.fdes[i].lowPc < prevLowPc {
        return None;
      }
      if Touches(c.l[j], c.fdes[i]) {
        break;
      }
      var next := RewriteOverRows(c, j, i, out);
      if next.None? {
        return None;
      }
      if IsPlain(c.l) { ExtendsKeepsRows(c, out, next.value, j); }
      out, prevLowPc, i := next.value, c.fdes[i].lowPc, i + 1;
    }
    return Some(out);
  }

  /** Every visited row that overlaps one of the first n expressions has its rewritten entry. */
  ghost predicate Complete(c: Input, n: nat, m: seq<LocExpr>)
    requires n <= |c.l| && Searches(c.search)
  {
    forall j: nat, f: nat, r: nat :: j < n && HasBreg(c.l[j]) && Visits(c, c.l[j], f) ==>
      RowCompleted(c, m, j, f, r)
  }

  lemma PutOriginal(c: Input, j: nat, m: seq<LocExpr>)
    requires j < |c.l| && Searches(c.search) && IsPlain(c.l)
    requires Faithful(c, j, m) && Complete(c, j, m)
    ensures Faithful(c, j + 1, Put(m, c.l[j])) && Complete(c, j, Put(m, c.l[j]))
  {
    hide Faithful, Completed, IsPlain, Visits, HasBreg, Overlaps, Put;
    assert Derived(c, c.l[j], j);
    PutIsFaithful(c, j, m, c.l[j], j);
    forall k: nat, f: nat, r: nat | k < j && HasBreg(c.l[k]) && Visits(c, c.l[k], f)
      ensures RowCompleted(c, Put(m, c.l[j]), k, f, r)
    {
      assert RowCompleted(c, m, k, f, r);
      if IsRow(c.fdes, f, r) && Overlaps(c.l[k], c.fdes[f].rows[r]) {
        PutKeepsCompleted(c, m, c.l[j], j, k, f, r);
      }
    }
  }

  /** The rewritten list. c.findFde gives the place of the frame description entry for an address, or one past
      the last if there is none. */
  method RewriteLoclist(c: Input)
    returns (r: Option<seq<LocExpr>>)
    requires Searches(c.search)
    ensures AllReached(c) && InOrder(c.fdes) ==> r.Some?
    ensures r.Some? ==> Sorted(r.value)
    ensures r.Some? && IsPlain(c.l) ==>
              Faithful(c, |c.l|, r.value) && Complete(c, |c.l|, r.value)
  {
    hide Faithful, IsPlain, AllReached, InOrder, Visits, Completed, Overlaps, IsTree, Sorted;
    var m, j := [], 0;
    NothingSorted();
    NothingIsFaithful(c);
    while j < |c.l|
      invariant 0 <= j <= |c.l| && Sorted(m)
      invariant IsPlain(c.l) ==> Faithful(c, j, m) && Complete(c, j, m)
    {
      if IsPlain(c.l) { PutOriginal(c, j, m); }
      PutIsSorted(m, c.l[j]);
      m := Put(m, c.l[j]);
      if HasBreg(c.l[j]) {
        var next := RewriteOverFdes(c, j, m);
        if next.None? {
          return None;
        }
        if IsPlain(c.l) { ExtendsKeepsComplete(c, j, m, next.value); }
        m := next.value;
      }
      j := j + 1;
    }
    return Some(m);
  }

  lemma NothingIsFaithful(c: Input)
    requires Searches(c.search)
    ensures Faithful(c, 0, [])
  {
  }

  // ---- The rewritten list means the same ----

  ghost predicate Covered(l: seq<LocExpr>, a: nat) {
    exists j :: 0 <= j < |l| && In(l[j], a)
  }

  /** No row begins with an address that would set the base. */
  ghost predicate PlainRows(fdes: seq<Fde>) {
    forall f: nat, r: nat :: IsRow(fdes, f, r) ==> !IsSelection(fdes[f].rows[r].lo)
  }

  /** The register values agree with every row that has the address. */
  ghost predicate RowsHold(fdes: seq<Fde>, env: Env, a: nat) {
    forall f: nat, r: nat :: IsRow(fdes, f, r) && fdes[f].rows[r].lo <= a < fdes[f].rows[r].hi ==>
      Satisfies(env, fdes[f].rows[r].defs)
  }

  /** Entries that do not set the base and have proper intervals. */
  ghost predicate NoSelection(l: seq<LocExpr>) {
    forall j :: 0 <= j < |l| ==> l[j].lopc < l[j].hipc <= MAX_ADDR && !IsSelection(l[j].lopc)
  }

  /** The expression selected is that of an entry with the address, if there is one. */
  lemma {:induction false} SelectsCovering(l: seq<LocExpr>, a: nat)
    requires NoSelection(l) && a < MAX_ADDR
    ensures Covered(l, a) <==> SelectFrom(l, a, 0).Some?
    ensures SelectFrom(l, a, 0).Some? ==>
              exists j :: 0 <= j < |l| && In(l[j], a) && SelectFrom(l, a, 0).value == l[j].ops
  {
    if l != [] {
      var rest := l[1..];
      if !In(l[0], a) {
        SelectsCovering(rest, a);
        if Covered(rest, a) {
          var j :| 0 <= j < |rest| && In(rest[j], a) && SelectFrom(rest, a, 0).value == rest[j].ops;
          assert In(l[j + 1], a);
        }
        if Covered(l, a) {
          var j :| 0 <= j < |l| && In(l[j], a);
          assert In(rest[j - 1], a);
        }
      } else {
        assert In(l[0], a);
      }
    }
  }

  lemma DerivedIsPlain(c: Input, e: LocExpr, j: nat)
    requires Searches(c.search) && IsPlain(c.l) && PlainRows(c.fdes) && Derived(c, e, j)
    ensures e.lopc < e.hipc <= MAX_ADDR && !IsSelection(e.lopc)
  {
    hide RewriteOps, IsTree;
  }

  lemma FaithfulHasNoSelection(c: Input, m: seq<LocExpr>)
    requires Searches(c.search) && IsPlain(c.l) && PlainRows(c.fdes) && Faithful(c, |c.l|, m)
    ensures NoSelection(m)
  {
    hide Derived, IsPlain;
    forall i | 0 <= i < |m| ensures m[i].lopc < m[i].hipc <= MAX_ADDR && !IsSelection(m[i].lopc) {
      assert Has(m, m[i]);
      var j: nat :| Derived(c, m[i], j);
      DerivedIsPlain(c, m[i], j);
    }
  }

  /** Evaluating the rewritten list gives the same stack as the original at every address, for all register
      values that agree with the rows there. Where entries overlap, either is right. */
  lemma RewrittenMeansTheSame(c: Input, r: seq<LocExpr>, env: Env, a: nat, m: Machine)
    requires Searches(c.search) && IsPlain(c.l) && PlainRows(c.fdes) && Faithful(c, |c.l|, r)
    requires RowsHold(c.fdes, env, a) && a < MAX_ADDR
    ensures EvalList(env, r, a, m, false) == EvalList(env, c.l, a, m, false)
  {
    hide Faithful, RowsHold, Eval, SelectFrom, IsPlain;
    FaithfulHasNoSelection(c, r);
    PlainHasNoSelection(c.l);
    SelectsCovering(c.l, a);
    SelectsCovering(r, a);
    CoversTheSame(c, r, a);
    if Covered(r, a) {
      var i: nat :| i < |r| && In(r[i], a) && SelectFrom(r, a, 0).value == r[i].ops;
      var j: nat :| j < |c.l| && In(c.l[j], a) && SelectFrom(c.l, a, 0).value == c.l[j].ops;
      EntryMeansTheSame(c, r, i, j, env, a, m);
    }
  }

  lemma PlainHasNoSelection(l: seq<LocExpr>)
    requires IsPlain(l)
    ensures NoSelection(l)
  {
  }

  lemma CoversTheSame(c: Input, r: seq<LocExpr>, a: nat)
    requires Searches(c.search) && IsPlain(c.l) && Faithful(c, |c.l|, r)
    ensures Covered(c.l, a) <==> Covered(r, a)
  {
    hide Derived, IsPlain;
    if Covered(c.l, a) {
      var j :| 0 <= j < |c.l| && In(c.l[j], a);
      assert HasInterval(r, c.l[j].lopc, c.l[j].hipc);
      var i :| 0 <= i < |r| && r[i].lopc == c.l[j].lopc && r[i].hipc == c.l[j].hipc;
      assert In(r[i], a);
    }
    if Covered(r, a) {
      var i :| 0 <= i < |r| && In(r[i], a);
      assert Has(r, r[i]);
      var j: nat :| Derived(c, r[i], j);
      DerivedIsProper(c, r[i], j);
      DerivedIsReal(c, r[i], j);
      assert In(c.l[j], a);
    }
  }

  lemma DerivedIsReal(c: Input, e: LocExpr, j: nat)
    requires Searches(c.search) && Derived(c, e, j)
    ensures j < |c.l|
  {
  }

  /** An entry that is derived from an expression evaluates to the same. */
  lemma DerivedMeansTheSame(c: Input, e: LocExpr, j: nat, env: Env, a: nat, m: Machine)
    requires Searches(c.search) && Derived(c, e, j) && RowsHold(c.fdes, env, a) && In(e, a)
    ensures j < |c.l| && Eval(env, e.ops, m, false) == Eval(env, c.l[j].ops, m, false)
  {
    hide Eval, Satisfies, RewriteOps, IsTree;
    if e != c.l[j] {
      var f: nat, r: nat :| DealsWith(c, c.l[j], f, r) && e == Rewritten(c.l[j], c.fdes[f].rows[r], c.search);
      var defs := c.fdes[f].rows[r].defs;
      assert IsTree(defs, c.search(defs));
      RewriteKeepsMeaning(env, defs, c.search(defs), c.l[j].ops, m);
    }
  }

  lemma EntryMeansTheSame(c: Input, r: seq<LocExpr>, i: nat, j: nat, env: Env, a: nat, m: Machine)
    requires Searches(c.search) && IsPlain(c.l) && Faithful(c, |c.l|, r) && RowsHold(c.fdes, env, a)
    requires i < |r| && In(r[i], a) && j < |c.l| && In(c.l[j], a)
    ensures Eval(env, r[i].ops, m, false) == Eval(env, c.l[j].ops, m, false)
  {
    hide Eval, RowsHold, Derived;
    assert Has(r, r[i]);
    var k: nat :| Derived(c, r[i], k);
    DerivedIsProper(c, r[i], k);
    DerivedMeansTheSame(c, r[i], k, env, a, m);
    assert k == j;
  }

  /** A row that is dealt with has the address, and begins no later than the expression. */
  ghost predicate TakesEffect(c: Input, e: LocExpr, a: nat, f: nat, q: nat) {
    DealsWith(c, e, f, q) && c.fdes[f].rows[q].lo <= e.lopc && a < c.fdes[f].rows[q].hi
  }

  /** x is the expression e rewritten for a row that takes effect. */
  ghost predicate IsEffect(c: Input, e: LocExpr, a: nat, x: LocExpr)
    requires Searches(c.search)
  {
    exists f: nat, q: nat :: TakesEffect(c, e, a, f, q) && x == Rewritten(e, c.fdes[f].rows[q], c.search)
  }

  /** An address selects its expression rewritten if and only if a row that is dealt with has the address and
      begins no later than the expression; if there are several, for one that ends first. Rows that begin
      later are shadowed by the original. */
  lemma RowsTakeEffectIff(c: Input,
                          r: seq<LocExpr>, j: nat, a: nat) returns (x: LocExpr)
    requires Searches(c.search) && IsPlain(c.l) && PlainRows(c.fdes) && Sorted(r)
    requires Faithful(c, |c.l|, r) && Complete(c, |c.l|, r)
    requires j < |c.l| && In(c.l[j], a) && a < MAX_ADDR
    ensures Has(r, x) && SelectFrom(r, a, 0) == Some(x.ops)
    ensures if exists f: nat, q: nat :: TakesEffect(c, c.l[j], a, f, q)
            then IsEffect(c, c.l[j], a, x) else x == c.l[j]
    ensures forall f: nat, q: nat :: TakesEffect(c, c.l[j], a, f, q) ==>
              x.hipc <= Min(c.fdes[f].rows[q].hi, c.l[j].hipc)
  {
    hide Faithful, Complete, IsPlain, PlainRows, Sorted, SelectFrom, IsEffect, Has, Visits, HasBreg;
    var i: nat := SelectedEntry(c, r, j, a);
    x := r[i];
    AtPlace(r, i);
    SelectedIsOriginalOrEffect(c, r, j, a, i);
    forall f: nat, q: nat | TakesEffect(c, c.l[j], a, f, q)
      ensures x.hipc <= Min(c.fdes[f].rows[q].hi, c.l[j].hipc) && IsEffect(c, c.l[j], a, x)
    {
      EffectIsSelected(c, r, j, a, i, f, q);
    }
    if IsEffect(c, c.l[j], a, x) {
      SomeRowTakesEffect(c, c.l[j], a, x);
    }
  }

  lemma AtPlace(r: seq<LocExpr>, i: nat)
    requires i < |r|
    ensures Has(r, r[i])
  {
  }

  lemma SomeRowTakesEffect(c: Input, e: LocExpr, a: nat, x: LocExpr)
    requires Searches(c.search) && IsEffect(c, e, a, x)
    ensures exists f: nat, q: nat :: TakesEffect(c, e, a, f, q)
  {
    hide TakesEffect, Rewritten;
  }

  /** What an address selects is the first entry that has it, and begins where the original expression does. */
  lemma SelectedEntry(c: Input, r: seq<LocExpr>,
                      j: nat, a: nat) returns (i: nat)
    requires Searches(c.search) && IsPlain(c.l) && PlainRows(c.fdes) && Sorted(r)
    requires Faithful(c, |c.l|, r)
    requires j < |c.l| && In(c.l[j], a) && a < MAX_ADDR
    ensures i < |r| && In(r[i], a) && r[i].lopc == c.l[j].lopc && SelectFrom(r, a, 0) == Some(r[i].ops)
    ensures forall k :: 0 <= k < i ==> !In(r[k], a)
  {
    hide Faithful, Derived, SelectFrom, IsPlain;
    FaithfulHasNoSelection(c, r);
    var o := OriginalIsThere(c, r, j);
    i := SelectsFirst(r, a, o);
    EntryIsInside(c, r, j, i, a);
  }

  lemma SelectedIsOriginalOrEffect(c: Input,
                                   r: seq<LocExpr>, j: nat, a: nat, i: nat)
    requires Searches(c.search) && IsPlain(c.l) && Faithful(c, |c.l|, r)
    requires j < |c.l| && In(c.l[j], a) && i < |r| && In(r[i], a) && r[i].lopc == c.l[j].lopc
    ensures r[i] == c.l[j] || IsEffect(c, c.l[j], a, r[i])
  {
    hide Derived, DealsWith, Rewritten, IsEffect, IsPlain;
    assert Has(r, r[i]);
    var k: nat :| Derived(c, r[i], k);
    DerivedIsProper(c, r[i], k);
    DerivedIsReal(c, r[i], k);
    OnlyOneHas(c.l, j, k, a);
    DerivedHere(c, r[i], j, a);
  }

  lemma OnlyOneHas(l: seq<LocExpr>, j: nat, k: nat, a: nat)
    requires IsPlain(l) && j < |l| && k < |l| && In(l[j], a) && In(l[k], a)
    ensures j == k
  {
  }

  lemma DerivedHere(c: Input, e: LocExpr, j: nat, a: nat)
    requires Searches(c.search) && Derived(c, e, j) && In(e, a) && e.lopc == c.l[j].lopc
    ensures e == c.l[j] || IsEffect(c, c.l[j], a, e)
  {
    hide Visits, HasBreg, RewriteOps, IsTree;
    if e != c.l[j] {
      var f: nat, q: nat :| DealsWith(c, c.l[j], f, q) && e == Rewritten(c.l[j], c.fdes[f].rows[q], c.search);
      assert TakesEffect(c, c.l[j], a, f, q);
    }
  }

  /** If a row takes effect, the first entry with the address is one that does, and ends no later. */
  lemma EffectIsSelected(c: Input, r: seq<LocExpr>,
                         j: nat, a: nat, i: nat, f: nat, q: nat)
    requires Searches(c.search) && Sorted(r) && Complete(c, |c.l|, r)
    requires j < |c.l| && In(c.l[j], a) && i < |r| && In(r[i], a) && forall k :: 0 <= k < i ==> !In(r[k], a)
    requires r[i].lopc == c.l[j].lopc && (r[i] == c.l[j] || IsEffect(c, c.l[j], a, r[i]))
    requires TakesEffect(c, c.l[j], a, f, q)
    ensures r[i].hipc <= Min(c.fdes[f].rows[q].hi, c.l[j].hipc) && IsEffect(c, c.l[j], a, r[i])
  {
    hide Complete, IsEffect, TakesEffect;
    var o: nat := EffectIsThere(c, r, j, a, f, q);
    if i < o { assert KeyLess(r[i], r[o]); }
  }

  lemma EffectIsThere(c: Input, r: seq<LocExpr>,
                      j: nat, a: nat, f: nat, q: nat) returns (o: nat)
    requires Searches(c.search) && Complete(c, |c.l|, r)
    requires j < |c.l| && In(c.l[j], a) && TakesEffect(c, c.l[j], a, f, q)
    ensures o < |r| && In(r[o], a) && r[o].lopc == c.l[j].lopc && r[o].hipc == Min(c.fdes[f].rows[q].hi, c.l[j].hipc)
    ensures IsEffect(c, c.l[j], a, r[o])
  {
    hide Visits, HasBreg, RewriteOps, IsTree;
    assert RowCompleted(c, r, j, f, q);
    var g: nat, p: nat :|
      && DealsWith(c, c.l[j], g, p) && Has(r, Rewritten(c.l[j], c.fdes[g].rows[p], c.search))
      && SameKey(Rewritten(c.l[j], c.fdes[g].rows[p], c.search), Rewritten(c.l[j], c.fdes[f].rows[q], c.search));
    o :| o < |r| && r[o] == Rewritten(c.l[j], c.fdes[g].rows[p], c.search);
    assert TakesEffect(c, c.l[j], a, g, p);
  }

  lemma OriginalIsThere(c: Input, r: seq<LocExpr>, j: nat) returns (o: nat)
    requires Searches(c.search) && Faithful(c, |c.l|, r) && j < |c.l|
    ensures o < |r| && r[o].lopc == c.l[j].lopc && r[o].hipc == c.l[j].hipc
  {
    assert HasInterval(r, c.l[j].lopc, c.l[j].hipc);
    o :| 0 <= o < |r| && r[o].lopc == c.l[j].lopc && r[o].hipc == c.l[j].hipc;
  }

  lemma EntryIsInside(c: Input, r: seq<LocExpr>, j: nat, i: nat, a: nat)
    requires Searches(c.search) && IsPlain(c.l) && Faithful(c, |c.l|, r)
    requires j < |c.l| && In(c.l[j], a) && i < |r| && In(r[i], a)
    ensures c.l[j].lopc <= r[i].lopc
  {
    hide Derived;
    assert Has(r, r[i]);
    var k: nat :| Derived(c, r[i], k);
    DerivedIsProper(c, r[i], k);
    DerivedIsReal(c, r[i], k);
    assert k == j;
  }

  /** The selected entry comes no later than any that has the address. */
  lemma {:induction false} SelectsFirst(r: seq<LocExpr>, a: nat, o: nat) returns (i: nat)
    requires NoSelection(r) && Sorted(r) && a < MAX_ADDR && o < |r| && In(r[o], a)
    ensures i <= o && In(r[i], a) && SelectFrom(r, a, 0) == Some(r[i].ops) && r[i].lopc <= r[o].lopc
    ensures forall k :: 0 <= k < i ==> !In(r[k], a)
  {
    if In(r[0], a) {
      i := 0;
    } else {
      var rest := r[1..];
      assert rest[o - 1] == r[o];
      assert Sorted(rest);
      var k: nat := SelectsFirst(rest, a, o - 1);
      i := k + 1;
    }
  }

  // ---- Which entries there are ----

  /** Some operation of the expression, anywhere in it, refers to a register with an offset. */
  predicate RefersToRegister(e: LocExpr) { exists k :: 0 <= k < |e.ops| && 0x70 <= e.ops[k].atom <= 0x8f }

  function Later(x: nat, y: nat): nat { if x < y then y else x }

  function Earlier(x: nat, y: nat): nat { if x < y then x else y }

  /** The f-th frame entry comes from the one for the first address on and not after the one for the last, and for
      none on the way is the range in common with the expression empty at its start. */
  ghost predicate IsReached(c: Input, e: LocExpr, f: nat) {
    && c.findFde(e.lopc) <= f < |c.fdes|
    && (c.findFde(e.hipc) < |c.fdes| ==> f <= c.findFde(e.hipc))
    && forall g: nat :: c.findFde(e.lopc) <= g <= f ==>
         var fde := c.fdes[g];
         Later(fde.lowPc, e.lopc) != Earlier(fde.lowPc + fde.funcLength + 1, e.hipc)
  }

  lemma ReachedIsVisited(c: Input, e: LocExpr, f: nat)
    ensures IsReached(c, e, f) <==> Visits(c, e, f)
  {
    if Visits(c, e, f) {
      forall g: nat | c.findFde(e.lopc) <= g <= f
        ensures Later(c.fdes[g].lowPc, e.lopc) != Earlier(c.fdes[g].lowPc + c.fdes[g].funcLength + 1, e.hipc)
      {
        assert !Touches(e, c.fdes[g]);
      }
    }
    if IsReached(c, e, f) {
      forall g | c.findFde(e.lopc) <= g <= f ensures !Touches(e, c.fdes[g]) {
        var g': nat := g;
        assert c.findFde(e.lopc) <= g' <= f;
      }
    }
  }

  /** The list has an entry for the addresses that an expression and a row have in common, if the expression refers to
      a register and the row's entry is reached; an expression that does not refer to one has only its own entry. */
  lemma EntriesAppear(c: Input, r: seq<LocExpr>, j: nat)
    requires Searches(c.search) && IsPlain(c.l) && Faithful(c, |c.l|, r) && Complete(c, |c.l|, r) && j < |c.l|
    ensures RefersToRegister(c.l[j]) ==>
              forall f: nat, q: nat :: IsReached(c, c.l[j], f) && q < |c.fdes[f].rows| ==>
                var row := c.fdes[f].rows[q];
                var lo, hi := Later(row.lo, c.l[j].lopc), Earlier(row.hi, c.l[j].hipc);
                lo < hi ==> HasInterval(r, lo, hi)
    ensures !RefersToRegister(c.l[j]) ==>
              forall x :: Has(r, x) && c.l[j].lopc <= x.lopc && x.hipc <= c.l[j].hipc ==> x == c.l[j]
  {
    hide Faithful, Complete, Completed, IsPlain, Derived, Visits, IsReached, Has, Searches;
    RefersIff(c.l[j]);
    forall f: nat, q: nat
      | RefersToRegister(c.l[j]) && IsReached(c, c.l[j], f) && f < |c.fdes| && q < |c.fdes[f].rows|
        && Later(c.fdes[f].rows[q].lo, c.l[j].lopc) < Earlier(c.fdes[f].rows[q].hi, c.l[j].hipc)
      ensures HasInterval(r, Later(c.fdes[f].rows[q].lo, c.l[j].lopc), Earlier(c.fdes[f].rows[q].hi, c.l[j].hipc))
    {
      ReachedIsVisited(c, c.l[j], f);
      CompleteHere(c, r, j, f, q);
    }
    forall f: nat | IsReached(c, c.l[j], f) ensures f < |c.fdes| { ReachedInRange(c, c.l[j], f); }
    forall x | !RefersToRegister(c.l[j]) && Has(r, x) && c.l[j].lopc <= x.lopc && x.hipc <= c.l[j].hipc
      ensures x == c.l[j]
    {
      OnlyItsOwn(c, r, j, x);
    }
  }

  lemma ReachedInRange(c: Input, e: LocExpr, f: nat)
    requires IsReached(c, e, f)
    ensures f < |c.fdes|
  {
  }

  lemma RefersIff(e: LocExpr)
    ensures RefersToRegister(e) <==> HasBreg(e)
  {
    if RefersToRegister(e) {
      var k :| 0 <= k < |e.ops| && 0x70 <= e.ops[k].atom <= 0x8f;
      assert IsBreg(e.ops[k]);
    }
    if HasBreg(e) {
      var k :| 0 <= k < |e.ops| && IsBreg(e.ops[k]);
      assert 0x70 <= e.ops[k].atom <= 0x8f;
    }
  }

  lemma CompleteHere(c: Input, r: seq<LocExpr>, j: nat, f: nat, q: nat)
    requires Searches(c.search) && Complete(c, |c.l|, r) && j < |c.l| && HasBreg(c.l[j]) && Visits(c, c.l[j], f)
    requires IsRow(c.fdes, f, q) && Overlaps(c.l[j], c.fdes[f].rows[q])
    ensures HasInterval(r, Max(c.fdes[f].rows[q].lo, c.l[j].lopc), Min(c.fdes[f].rows[q].hi, c.l[j].hipc))
  {
    hide Visits, HasBreg, RewriteOps, IsTree;
    assert RowCompleted(c, r, j, f, q);
    var g: nat, p: nat :|
      && DealsWith(c, c.l[j], g, p) && Has(r, Rewritten(c.l[j], c.fdes[g].rows[p], c.search))
      && SameKey(Rewritten(c.l[j], c.fdes[g].rows[p], c.search), Rewritten(c.l[j], c.fdes[f].rows[q], c.search));
    var o: nat :| o < |r| && r[o] == Rewritten(c.l[j], c.fdes[g].rows[p], c.search);
  }

  lemma OnlyItsOwn(c: Input, r: seq<LocExpr>, j: nat, x: LocExpr)
    requires Searches(c.search) && IsPlain(c.l) && Faithful(c, |c.l|, r) && j < |c.l| && !HasBreg(c.l[j])
    requires Has(r, x) && c.l[j].lopc <= x.lopc && x.hipc <= c.l[j].hipc
    ensures x == c.l[j]
  {
    hide Visits, HasBreg, Rewritten;
    var k: nat :| Derived(c, x, k);
    DerivedIsProper(c, x, k);
    DerivedIsReal(c, x, k);
    OnlyOneHas(c.l, j, k, x.lopc);
  }

  // ---- A row that is shadowed ----

  const ONE_LIST := [LocExpr(0, 100, [Op(BREG0 + 5, 0, 0)])]

  /** Register 5 is the frame address and 8, from address 10 on. */
  const LATER_ROW := T.Row(10, 20, map[5 := T.BLANK.(kind := T.REG, regPlusOffset := (T.CFA, 8))])

  const ONE_FDE := [Fde(0, 100, [LATER_ROW])]

  lemma LaterRowRewrites(t: Tree)
    requires IsTree(LATER_ROW.defs, t)
    ensures CanRewrite(LATER_ROW.defs, t, ONE_LIST[0].ops)
    ensures RewriteOps(LATER_ROW.defs, t, ONE_LIST[0].ops)
              == [Op(CALL_FRAME_CFA, 0, 0), Op(CONSTS, 8, 0), Op(PLUS, 0, 0)]
  {
    var defs, op := LATER_ROW.defs, ONE_LIST[0].ops[0];
    assert IsSum(defs, 5) && defs[5].regPlusOffset == (T.CFA, 8) && forall v :: IsSum(defs, v) ==> v == 5;
    assert InGraph(defs, T.CFA);
    assert Edge(defs, T.CFA, 5) == Some(8) && forall u :: Edge(defs, u, 5).Some? ==> u == T.CFA;
    assert 5 in t.dist && 5 in t.pred && t.pred[5] == T.CFA;
    assert PathSum(defs, t, T.CFA) == 0 && PathSum(defs, t, 5) == 8;
    assert RewriteOp(defs, t, op) == Replacement(8, op);
    RewriteFront(defs, t, [op]);
    assert RewriteOps(defs, t, []) == [];
  }

  lemma LaterRowIsDealtWith(c: Input)
    requires c.l == ONE_LIST && c.fdes == ONE_FDE && c.findFde(0) == 0
    ensures HasBreg(c.l[0]) && Visits(c, c.l[0], 0) && DealsWith(c, c.l[0], 0, 0)
    ensures forall f: nat, q: nat :: IsRow(c.fdes, f, q) ==> f == 0 && q == 0
  {
    assert IsBreg(c.l[0].ops[0]);
  }

  lemma OneListIsPlain(c: Input)
    requires c.l == ONE_LIST && c.fdes == ONE_FDE && Searches(c.search)
    ensures AllReached(c) && InOrder(c.fdes) && IsPlain(c.l) && PlainRows(c.fdes)
  {
    hide IsTree, CanRewrite;
    assert IsTree(LATER_ROW.defs, c.search(LATER_ROW.defs));
    LaterRowRewrites(c.search(LATER_ROW.defs));
  }

  /** The expression rewritten for a row that begins after it is in the list, and no address of the row
      selects it. */
  lemma LaterRowIsShadowed(c: Input, r: seq<LocExpr>, a: nat)
    requires c.l == ONE_LIST && c.fdes == ONE_FDE && c.findFde(0) == 0 && Searches(c.search)
    requires Faithful(c, 1, r) && Complete(c, 1, r) && Sorted(r) && LATER_ROW.lo <= a < LATER_ROW.hi
    ensures AllReached(c) && InOrder(c.fdes) && IsPlain(c.l)
    ensures Has(r, LocExpr(10, 20, [Op(CALL_FRAME_CFA, 0, 0), Op(CONSTS, 8, 0), Op(PLUS, 0, 0)]))
    ensures SelectFrom(r, a, 0) == Some(c.l[0].ops)
  {
    hide Faithful, IsPlain, PlainRows, AllReached, InOrder, Sorted, Has, Visits, HasBreg, RewriteOps, IsTree;
    hide SelectFrom, IsEffect;
    OneListIsPlain(c);
    LaterRowIsDealtWith(c);
    assert IsTree(LATER_ROW.defs, c.search(LATER_ROW.defs));
    LaterRowRewrites(c.search(LATER_ROW.defs));
    assert RowCompleted(c, r, 0, 0, 0);
    assert Has(r, Rewritten(c.l[0], LATER_ROW, c.search));
    var x := RowsTakeEffectIff(c, r, 0, a);
  }
}
