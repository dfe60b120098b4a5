/**
  The rendered statement returns the rows of the pre-filtered reference for every
  table content, condition and choice of match exactly when no guarded table's
  predicates land in a FULL JOIN's ON and no ASOF-joined table carries any.
 */
module JoinPlacementSafety {
  import opened Wrappers
  import opened JoinChain
  import opened ThreeValued
  import opened JoinPlacement

  // ------------------------------------------------------- clauses as conditions

  lemma {:induction false} ConjConcat(a: seq<Placed>, b: seq<Placed>, c: Combined)
    ensures Conj(a + b, c) == True <==> Conj(a, c) == True && Conj(b, c) == True
  {
    if b == [] {
      assert a + b == a;
    } else {
      assert (a + b)[..|a + b| - 1] == a + b[..|b| - 1];
      ConjConcat(a, b[..|b| - 1], c);
    }
  }

  lemma {:induction false} ConjTag(k: nat, gs: seq<Guard>, c: Combined)
    requires k < |c|
    ensures Conj(Tag(k, gs), c) == True <==> forall i :: 0 <= i < |gs| ==> gs[i](c[k]) == True
  {
    if gs != [] {
      assert Tag(k, gs)[..|gs| - 1] == Tag(k, gs[..|gs| - 1]);
      ConjTag(k, gs[..|gs| - 1], c);
      assert forall i :: 0 <= i < |gs| - 1 ==> gs[..|gs| - 1][i] == gs[i];
    }
  }

  ghost predicate DefaultsHold(t: Table, r: Option<Row>) {
    forall i :: 0 <= i < |t.defaults| ==> t.defaults[i](r) == True
  }

  ghost predicate CtxHold(t: Table, r: Option<Row>) {
    forall i :: 0 <= i < |t.ctx| ==> t.ctx[i](r) == True
  }

  ghost predicate TableHolds(t: Table, d: bool, x: bool, r: Option<Row>) {
    (d ==> DefaultsHold(t, r)) && (x ==> CtxHold(t, r))
  }

  lemma TableConj(before: seq<Placed>, k: nat, t: Table, d: bool, x: bool, c: Combined)
    requires k < |c|
    ensures Conj(before + (if d then Tag(k, t.defaults) else []) + (if x then Tag(k, t.ctx) else []), c) == True <==>
            Conj(before, c) == True && TableHolds(t, d, x, c[k])
  {
    var ds, xs := if d then Tag(k, t.defaults) else [], if x then Tag(k, t.ctx) else [];
    ConjConcat(before + ds, xs, c);
    ConjConcat(before, ds, c);
    ConjTag(k, t.defaults, c);
    ConjTag(k, t.ctx, c);
  }

  /** The conjunction placed in a clause holds iff the guards of the instances sent there do. */
  lemma {:induction false} GuardsForHold(q: Query, slot: int, n: nat, d: bool, x: bool, c: Combined)
    requires n <= |q.joins| + 1
    requires forall k: nat :: k < n && Slot(q, k) == slot ==> k < |c|
    ensures Conj(GuardsFor(q, slot, n, d, x), c) == True <==>
            forall k: nat :: k < n && Slot(q, k) == slot ==> TableHolds(TableAt(q, k), d, x, c[k])
  {
    if n > 0 {
      GuardsForHold(q, slot, n - 1, d, x, c);
      if Slot(q, n - 1) == slot {
        TableConj(GuardsFor(q, slot, n - 1, d, x), n - 1, TableAt(q, n - 1), d, x, c);
      }
    }
  }

  /** The guards due at `slot` hold of c. */
  ghost predicate Due(q: Query, slot: int, c: Combined) {
    forall k: nat :: k <= |q.joins| && Slot(q, k) == slot ==> k < |c| && Visible(TableAt(q, k), c[k])
  }

  lemma OnAccepts(q: Query, i: nat, c: Combined)
    requires i < |q.joins| && |c| == i + 2
    ensures RenderedOn(q, i)(c) <==> OnTruth(q.joins[i].on, c) == True && Due(q, i, c)
  {
    GuardsForHold(q, i, |q.joins| + 1, true, true, c);
  }

  lemma WhereAcceptsIff(q: Query, c: Combined)
    requires |c| == |q.joins| + 1
    ensures RenderedWhere(q)(c) <==> ConjConditions(q.wheres, c) == True && Due(q, -1, c)
  {
    GuardsForHold(q, -1, |q.joins| + 1, true, false, c);
    GuardsForHold(q, -1, |q.joins| + 1, false, true, c);
  }

  // ----------------------------------------------------------- pending guards

  /** The guards of instance k have not been written by the time i joins are done. */
  ghost predicate IsPending(q: Query, i: nat, k: nat)
    requires k <= |q.joins|
  {
    k <= i && (Slot(q, k) == -1 || Slot(q, k) >= i)
  }

  ghost predicate Pending(q: Query, i: nat, c: Combined)
    requires i <= |q.joins| && |c| == i + 1
  {
    forall k: nat :: k <= i && IsPending(q, i, k) ==> Visible(TableAt(q, k), c[k])
  }

  /** `Pending` as a filter over the rows of the chain after i joins. */
  ghost function PendingHold(q: Query): nat -> Combined -> bool {
    (i: nat) => (c: Combined) => i <= |q.joins| && |c| == i + 1 && Pending(q, i, c)
  }

  ghost function ShowsSlot(t: Table): Option<Row> -> bool {
    x => Visible(t, x)
  }

  // ------------------------------------------------------------- the safe shape

  predicate Unguarded(t: Table) {
    t.defaults == [] && t.ctx == []
  }

  /** No guarded table's predicates reach a FULL JOIN's ON, and no ASOF-joined table has any. */
  predicate Safe(q: Query) {
    && (forall i: nat, k: nat ::
          i < |q.joins| && k <= |q.joins| && q.joins[i].kind == Full && Slot(q, k) == i ==> Unguarded(TableAt(q, k)))
    && (forall i: nat :: i < |q.joins| && q.joins[i].kind == Asof ==> Unguarded(q.joins[i].table))
  }

  /** Which instances are sent to join i, and how the pending ones change there. */
  lemma SlotFacts(q: Query, i: nat)
    requires i < |q.joins|
    ensures forall k: nat :: i + 1 < k <= |q.joins| ==> Slot(q, k) != i
    ensures Slot(q, i + 1) == i <==> KeepsOwnOn(q.joins[i].kind)
    ensures IsPending(q, i + 1, i + 1) <==> !KeepsOwnOn(q.joins[i].kind)
    ensures forall k: nat :: k <= i ==> (Slot(q, k) == i <==> IsPending(q, i, k) && PreservesRight(q.joins[i].kind))
    ensures forall k: nat :: k <= i ==>
              (IsPending(q, i + 1, k) <==> IsPending(q, i, k) && !PreservesRight(q.joins[i].kind))
  {
  }

  /** What the ON of an inner join decides, and what becomes pending there. */
  lemma InnerFacts(q: Query, i: nat, l: Combined, x: Option<Row>)
    requires i < |q.joins| && |l| == i + 1
    requires !KeepsOwnOn(q.joins[i].kind) && !PreservesRight(q.joins[i].kind)
    ensures Due(q, i, l + [x])
    ensures Pending(q, i + 1, l + [x]) <==> Pending(q, i, l) && Visible(q.joins[i].table, x)
  {
    SlotFacts(q, i);
    var c := l + [x];
    assert TableAt(q, i + 1) == q.joins[i].table && c[i + 1] == x;
    assert forall k: nat :: k <= i ==> c[k] == l[k];
    if Pending(q, i + 1, c) {
      assert IsPending(q, i + 1, i + 1);
      forall k: nat | k <= i && IsPending(q, i, k) ensures Visible(TableAt(q, k), l[k]) {
        assert IsPending(q, i + 1, k);
      }
    }
  }

  lemma OwnOnFacts(q: Query, i: nat, l: Combined, x: Option<Row>)
    requires i < |q.joins| && |l| == i + 1
    requires KeepsOwnOn(q.joins[i].kind) && !PreservesRight(q.joins[i].kind)
    ensures Due(q, i, l + [x]) <==> Visible(q.joins[i].table, x)
    ensures Pending(q, i + 1, l + [x]) <==> Pending(q, i, l)
  {
    SlotFacts(q, i);
    var c := l + [x];
    assert TableAt(q, i + 1) == q.joins[i].table && c[i + 1] == x;
    assert forall k: nat :: k <= i ==> c[k] == l[k];
    if Pending(q, i + 1, c) {
      forall k: nat | k <= i && IsPending(q, i, k) ensures Visible(TableAt(q, k), l[k]) {
        assert IsPending(q, i + 1, k);
      }
    }
  }

  lemma RightFacts(q: Query, i: nat, l: Combined, x: Option<Row>)
    requires i < |q.joins| && |l| == i + 1
    requires q.joins[i].kind == Right
    ensures Due(q, i, l + [x]) <==> Pending(q, i, l)
    ensures Pending(q, i + 1, l + [x]) <==> Visible(q.joins[i].table, x)
  {
    SlotFacts(q, i);
    var c := l + [x];
    assert TableAt(q, i + 1) == q.joins[i].table && c[i + 1] == x;
    assert forall k: nat :: k <= i ==> c[k] == l[k];
    if Due(q, i, c) {
      forall k: nat | k <= i && IsPending(q, i, k) ensures Visible(TableAt(q, k), l[k]) {
        assert Slot(q, k) == i;
      }
    }
    if Pending(q, i + 1, c) {
      assert IsPending(q, i + 1, i + 1);
    }
  }

  lemma FullFacts(q: Query, i: nat, l: Combined, x: Option<Row>)
    requires i < |q.joins| && |l| == i + 1
    requires q.joins[i].kind == Full && Safe(q)
    ensures Due(q, i, l + [x]) && Pending(q, i, l) && Pending(q, i + 1, l + [x])
    ensures Visible(q.joins[i].table, x)
  {
    SlotFacts(q, i);
    assert TableAt(q, i + 1) == q.joins[i].table && Slot(q, i + 1) == i;
  }

  // ---------------------------------------------------------------- one join

  lemma InnerOn(q: Query, i: nat, l: Combined, x: Option<Row>)
    requires i < |q.joins| && |l| == i + 1
    requires q.joins[i].kind == Inner || q.joins[i].kind == All
    ensures RenderedOn(q, i)(l + [x]) <==> CallerOn(q, i)(l + [x])
    ensures PendingHold(q)(i + 1)(l + [x]) <==> PendingHold(q)(i)(l) && ShowsSlot(q.joins[i].table)(x)
  {
    OnAccepts(q, i, l + [x]);
    InnerFacts(q, i, l, x);
  }

  lemma InnerJoin(q: Query, pick: Pick, i: nat, left: seq<Combined>)
    requires i < |q.joins| && Width(i + 1, left)
    requires q.joins[i].kind == Inner || q.joins[i].kind == All
    ensures var j := q.joins[i];
            Keep(PendingHold(q)(i + 1), LeftDriven(j.kind, pick, i, left, j.table.rows, RenderedOn(q, i))) ==
            LeftDriven(j.kind, pick, i, Keep(PendingHold(q)(i), left), KeepRows(Shows(j.table), j.table.rows),
                       CallerOn(q, i))
  {
    hide LeftDriven, Keep, KeepRows, PendingHold, RenderedOn, CallerOn;
    var j := q.joins[i];
    var p, p', on, on' := PendingHold(q)(i), PendingHold(q)(i + 1), RenderedOn(q, i), CallerOn(q, i);
    forall l: Combined, x: Option<Row> | |l| == i + 1
      ensures (on(l + [x]) <==> on'(l + [x])) && (p'(l + [x]) <==> p(l) && ShowsSlot(j.table)(x))
    {
      InnerOn(q, i, l, x);
    }
    InnerKeep(j.kind, pick, i, left, j.table.rows, on, on', Shows(j.table), p, p', ShowsSlot(j.table));
  }

  lemma OwnOn(q: Query, i: nat, l: Combined, x: Option<Row>)
    requires i < |q.joins| && |l| == i + 1 && Safe(q)
    requires var k := q.joins[i].kind; k == Left || k == Any || k == Asof || k == Full
    ensures RenderedOn(q, i)(l + [x]) <==> CallerOn(q, i)(l + [x]) && Visible(q.joins[i].table, x)
    ensures PendingHold(q)(i + 1)(l + [x]) <==> PendingHold(q)(i)(l)
  {
    OnAccepts(q, i, l + [x]);
    if q.joins[i].kind == Asof {
      InnerFacts(q, i, l, x);
    } else if q.joins[i].kind == Full {
      FullFacts(q, i, l, x);
    } else {
      OwnOnFacts(q, i, l, x);
    }
  }

  lemma OwnOnJoin(q: Query, pick: Pick, i: nat, left: seq<Combined>)
    requires i < |q.joins| && Width(i + 1, left) && Safe(q)
    requires var k := q.joins[i].kind; k == Left || k == Any || k == Asof || k == Full
    ensures var j := q.joins[i];
            Keep(PendingHold(q)(i + 1), LeftDriven(j.kind, pick, i, left, j.table.rows, RenderedOn(q, i))) ==
            LeftDriven(j.kind, pick, i, Keep(PendingHold(q)(i), left), KeepRows(Shows(j.table), j.table.rows),
                       CallerOn(q, i))
  {
    hide LeftDriven, Keep, KeepRows, PendingHold, RenderedOn, CallerOn, Visible, Safe;
    var j := q.joins[i];
    var p, p', on, on' := PendingHold(q)(i), PendingHold(q)(i + 1), RenderedOn(q, i), CallerOn(q, i);
    forall l: Combined, x: Option<Row> | |l| == i + 1
      ensures p'(l + [x]) == p(l)
      ensures x.Some? ==> (on(l + [x]) <==> on'(l + [x]) && Shows(j.table)(x.value))
    {
      OwnOn(q, i, l, x);
    }
    OwnOnKeep(j.kind, pick, i, left, j.table.rows, on, on', Shows(j.table), p, p');
  }

  lemma RightOn(q: Query, i: nat, l: Combined, r: Row)
    requires i < |q.joins| && |l| == i + 1
    requires q.joins[i].kind == Right
    ensures RenderedOn(q, i)(l + [Some(r)]) <==> CallerOn(q, i)(l + [Some(r)]) && PendingHold(q)(i)(l)
    ensures PendingHold(q)(i + 1)(l + [Some(r)]) <==> Shows(q.joins[i].table)(r)
  {
    OnAccepts(q, i, l + [Some(r)]);
    RightFacts(q, i, l, Some(r));
  }

  lemma RightJoin(q: Query, i: nat, left: seq<Combined>)
    requires i < |q.joins| && Width(i + 1, left)
    requires q.joins[i].kind == Right
    ensures var j := q.joins[i];
            Keep(PendingHold(q)(i + 1), RightDriven(i, left, j.table.rows, RenderedOn(q, i))) ==
            RightDriven(i, Keep(PendingHold(q)(i), left), KeepRows(Shows(j.table), j.table.rows), CallerOn(q, i))
  {
    hide RightDriven, Keep, KeepRows, PendingHold, RenderedOn, CallerOn, Shows;
    var j := q.joins[i];
    var p, p', on, on' := PendingHold(q)(i), PendingHold(q)(i + 1), RenderedOn(q, i), CallerOn(q, i);
    forall l: Combined, r: Row | |l| == i + 1
      ensures on(l + [Some(r)]) <==> on'(l + [Some(r)]) && p(l)
      ensures p'(l + [Some(r)]) <==> Shows(j.table)(r)
    {
      RightOn(q, i, l, r);
    }
    RightKeep(i, left, j.table.rows, on, on', Shows(j.table), p, p');
  }

  lemma FullOn(q: Query, i: nat, l: Combined, r: Row)
    requires i < |q.joins| && |l| == i + 1 && Safe(q)
    requires q.joins[i].kind == Full
    ensures RenderedOn(q, i)(l + [Some(r)]) <==> CallerOn(q, i)(l + [Some(r)])
    ensures PendingHold(q)(i)(l) && PendingHold(q)(i + 1)(l + [Some(r)]) && Shows(q.joins[i].table)(r)
  {
    OnAccepts(q, i, l + [Some(r)]);
    FullFacts(q, i, l, Some(r));
  }

  lemma FullUnmatched(q: Query, i: nat, left: seq<Combined>)
    requires i < |q.joins| && Width(i + 1, left) && Safe(q)
    requires q.joins[i].kind == Full
    ensures var j := q.joins[i];
            Keep(PendingHold(q)(i + 1), UnmatchedRight(i, left, j.table.rows, RenderedOn(q, i))) ==
            UnmatchedRight(i, Keep(PendingHold(q)(i), left), KeepRows(Shows(j.table), j.table.rows), CallerOn(q, i))
  {
    hide UnmatchedRight, Keep, KeepRows, PendingHold, RenderedOn, CallerOn, Shows, Safe;
    var j := q.joins[i];
    var p, p', on, on' := PendingHold(q)(i), PendingHold(q)(i + 1), RenderedOn(q, i), CallerOn(q, i);
    forall l: Combined, r: Row | |l| == i + 1 ensures on(l + [Some(r)]) <==> on'(l + [Some(r)]) && p(l) {
      FullOn(q, i, l, r);
    }
    forall r: Row ensures Shows(j.table)(r) && p'(Nulls(i + 1) + [Some(r)]) {
      FullOn(q, i, Nulls(i + 1), r);
    }
    KeepRowsAll(Shows(j.table), j.table.rows);
    UnmatchedAll(i, left, j.table.rows, on, p');
    UnmatchedSame(i, left, j.table.rows, on, on', p);
  }

  /** One join of the rendered chain, filtered by what is then pending, is that join over filtered inputs. */
  lemma OneJoin(q: Query, pick: Pick, i: nat, left: seq<Combined>)
    requires i < |q.joins| && Width(i + 1, left) && Safe(q)
    ensures Width(i + 2, RenderedJoin(q, pick)(i, left))
    ensures Keep(PendingHold(q)(i + 1), RenderedJoin(q, pick)(i, left)) ==
            ReferenceJoin(q, pick)(i, Keep(PendingHold(q)(i), left))
  {
    hide LeftDriven, RightDriven, UnmatchedRight, Keep, KeepRows, PendingHold, RenderedOn, CallerOn, Shows, Safe;
    var j := q.joins[i];
    StepWidth(j.kind, pick, i, left, j.table.rows, RenderedOn(q, i));
    match j.kind {
      case Right => RightJoin(q, i, left);
      case Inner => InnerJoin(q, pick, i, left);
      case All => InnerJoin(q, pick, i, left);
      case Full =>
        OwnOnJoin(q, pick, i, left);
        FullUnmatched(q, i, left);
        KeepConcat(PendingHold(q)(i + 1), LeftDriven(Full, pick, i, left, j.table.rows, RenderedOn(q, i)),
                   UnmatchedRight(i, left, j.table.rows, RenderedOn(q, i)));
      case _ => OwnOnJoin(q, pick, i, left);
    }
  }

  // ------------------------------------------------------------ the whole chain

  lemma FromJoin(q: Query)
    ensures FromRows(KeepRows(Shows(q.from), q.from.rows)) == Keep(PendingHold(q)(0), FromRows(q.from.rows))
  {
    forall x: Option<Row> ensures PendingHold(q)(0)([x]) == ShowsSlot(q.from)(x) {
      assert IsPending(q, 0, 0);
    }
    KeepFrom(PendingHold(q)(0), ShowsSlot(q.from), Shows(q.from), q.from.rows);
  }

  lemma WhereJoin(q: Query, c: Combined)
    requires |c| == |q.joins| + 1
    ensures RenderedWhere(q)(c) <==> CallerWhere(q)(c) && PendingHold(q)(|q.joins|)(c)
  {
    var n := |q.joins|;
    WhereAcceptsIff(q, c);
    assert forall k: nat :: k <= n ==> (IsPending(q, n, k) <==> Slot(q, k) == -1);
  }

  /** On a safe shape the rendered statement returns the reference's rows, in the same order. */
  lemma PlacementPreservesMeaning(q: Query, pick: Pick)
    requires Safe(q)
    ensures Returned(q, pick) == Reference(q, pick)
  {
    hide Chain, Keep, KeepRows, RenderedJoin, ReferenceJoin, RenderedWhere, CallerWhere, PendingHold, Safe, Shows;
    var n := |q.joins|;
    forall i: nat, left: seq<Combined> | i < n && Width(i + 1, left)
      ensures Width(i + 2, RenderedJoin(q, pick)(i, left))
      ensures Keep(PendingHold(q)(i + 1), RenderedJoin(q, pick)(i, left)) ==
              ReferenceJoin(q, pick)(i, Keep(PendingHold(q)(i), left))
    {
      OneJoin(q, pick, i, left);
    }
    FromJoin(q);
    ChainKeep(FromRows(q.from.rows), FromRows(KeepRows(Shows(q.from), q.from.rows)), RenderedJoin(q, pick),
              ReferenceJoin(q, pick), PendingHold(q), n, n);
    forall c: Combined | |c| == n + 1 ensures RenderedWhere(q)(c) <==> CallerWhere(q)(c) && PendingHold(q)(n)(c) {
      WhereJoin(q, c);
    }
    KeepTwice(n + 1, RenderedWhere(q), CallerWhere(q), PendingHold(q)(n),
              Chain(FromRows(q.from.rows), RenderedJoin(q, pick), n));
  }
}
