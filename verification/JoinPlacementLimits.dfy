/**
  The safe shape is exact: for every shape outside it there are tables on which the
  rendered statement and the reference disagree. `CheckJoinPlacement` is the code's
  own refusal, which neither implies the safe shape nor is implied by it.
 */
module JoinPlacementLimits {
  import opened Wrappers
  import opened JoinChain
  import opened ThreeValued
  import opened JoinPlacement
  import opened JoinPlacementSafety

  // ------------------------------------------------------------------- shapes

  ghost predicate SameTable(t: Table, t': Table) {
    |t.defaults| == |t'.defaults| && |t.ctx| == |t'.ctx|
  }

  /** The same join kinds over tables carrying as many guards; rows, guards and conditions are free. */
  ghost predicate SameShape(q: Query, q': Query) {
    && |q.joins| == |q'.joins|
    && (forall i :: 0 <= i < |q.joins| ==> q.joins[i].kind == q'.joins[i].kind)
    && (forall k: nat :: k <= |q.joins| ==> SameTable(TableAt(q, k), TableAt(q', k)))
  }

  lemma {:induction false} SameNext(q: Query, q': Query, i: nat)
    requires SameShape(q, q') && i <= |q.joins|
    ensures NextPreserving(q.joins, i) == NextPreserving(q'.joins, i)
    decreases |q.joins| - i
  {
    if i < |q.joins| {
      SameNext(q, q', i + 1);
    }
  }

  lemma SameSlot(q: Query, q': Query, k: nat)
    requires SameShape(q, q') && k <= |q.joins|
    ensures Slot(q, k) == Slot(q', k)
  {
    SameNext(q, q', k);
  }

  lemma SafetyIsShape(q: Query, q': Query)
    requires SameShape(q, q') && Safe(q)
    ensures Safe(q')
  {
    forall i: nat, k: nat | i < |q'.joins| && k <= |q'.joins| && q'.joins[i].kind == Full && Slot(q', k) == i
      ensures Unguarded(TableAt(q', k))
    {
      SameSlot(q, q', k);
      assert SameTable(TableAt(q, k), TableAt(q', k));
    }
    forall i: nat | i < |q'.joins| && q'.joins[i].kind == Asof ensures Unguarded(q'.joins[i].table) {
      assert SameTable(TableAt(q, i + 1), TableAt(q', i + 1));
    }
  }

  // ------------------------------------------------- tables that tell them apart

  const X: Row := map["id" := 0]
  const Y: Row := map["id" := 1]

  lemma XIsNotY()
    ensures X != Y
  {
    assert X["id"] != Y["id"];
  }

  function Always(v: Truth): Guard {
    (_: Option<Row>) => v
  }

  function OnlyY(): Guard {
    (r: Option<Row>) => if r == Some(Y) then True else False
  }

  function Refill(t: Table, rows: seq<Row>, g: Guard): Table {
    Table(rows, seq(|t.defaults|, _ => g), seq(|t.ctx|, _ => g))
  }

  /** Instance p holds `rows` under guard g; every other table holds one visible row. */
  function Refilled(q: Query, p: nat, rows: seq<Row>, g: Guard): Query {
    Query(if p == 0 then Refill(q.from, rows, g) else Refill(q.from, [X], Always(True)),
          seq(|q.joins|, i requires 0 <= i < |q.joins| =>
            Join(q.joins[i].kind,
                 if p == i + 1 then Refill(q.joins[i].table, rows, g) else Refill(q.joins[i].table, [X], Always(True)),
                 None)),
          [])
  }

  lemma RefillVisible(t: Table, rows: seq<Row>, g: Guard, r: Option<Row>)
    ensures Visible(Refill(t, rows, g), r) <==> Unguarded(t) || g(r) == True
  {
    var t' := Refill(t, rows, g);
    assert |t.defaults| > 0 ==> t'.defaults[0] == g;
    assert |t.ctx| > 0 ==> t'.ctx[0] == g;
  }

  lemma RefilledAt(q: Query, p: nat, rows: seq<Row>, g: Guard, k: nat, r: Option<Row>)
    requires k <= |q.joins|
    ensures var q' := Refilled(q, p, rows, g);
            && |q'.joins| == |q.joins|
            && TableAt(q', k).rows == (if k == p then rows else [X])
            && (Visible(TableAt(q', k), r) <==> Unguarded(TableAt(q, k)) || k != p || g(r) == True)
            && (k > 0 ==> q'.joins[k - 1].kind == q.joins[k - 1].kind && q'.joins[k - 1].on == None)
  {
    RefillVisible(TableAt(q, k), rows, g, r);
    RefillVisible(TableAt(q, k), [X], Always(True), r);
  }

  lemma RefilledShape(q: Query, p: nat, rows: seq<Row>, g: Guard)
    ensures SameShape(q, Refilled(q, p, rows, g))
  {
  }

  // --------------------------------------- a guard sent to a FULL JOIN leaks a row

  ghost predicate Guarded(q: Query, p: nat) {
    p <= |q.joins| && !Unguarded(TableAt(q, p))
  }

  /** The query in which instance p holds one row its guard hides. */
  ghost function Leaking(q: Query, p: nat): Query {
    Refilled(q, p, [X], Always(False))
  }

  lemma LeakingAt(q: Query, p: nat, k: nat, r: Option<Row>)
    requires p <= |q.joins| && k <= |q.joins|
    ensures SameShape(q, Leaking(q, p)) && Slot(Leaking(q, p), k) == Slot(q, k)
    ensures TableAt(Leaking(q, p), k).rows == [X]
    ensures Visible(TableAt(Leaking(q, p), k), r) <==> Unguarded(TableAt(q, k)) || k != p
  {
    RefilledAt(q, p, [X], Always(False), k, r);
    RefilledShape(q, p, [X], Always(False));
    SameSlot(q, Leaking(q, p), k);
  }

  lemma LeakingOn(q: Query, p: nat, j: nat, c: Combined)
    requires Guarded(q, p) && j < |q.joins| && |c| == j + 2
    ensures |Leaking(q, p).joins| == |q.joins|
    ensures RenderedOn(Leaking(q, p), j)(c) <==> Slot(q, p) != j
  {
    var q' := Leaking(q, p);
    RefilledShape(q, p, [X], Always(False));
    RefilledAt(q, p, [X], Always(False), j + 1, None);
    hide Leaking, RenderedOn, GuardsFor, Slot, Visible;
    OnAccepts(q', j, c);
    if Slot(q, p) == j {
      LeakingAt(q, p, p, None);
      SlotFacts(q', j);
      LeakingAt(q, p, p, c[p]);
    } else {
      forall k: nat | k <= |q.joins| && Slot(q', k) == j ensures k < |c| && Visible(TableAt(q', k), c[k]) {
        SlotFacts(q', j);
        LeakingAt(q, p, k, c[k]);
      }
    }
  }

  ghost function RenderedChain(q: Query, pick: Pick, n: nat): seq<Combined> {
    Chain(FromRows(q.from.rows), RenderedJoin(q, pick), n)
  }

  ghost function ReferenceChain(q: Query, pick: Pick, n: nat): seq<Combined> {
    Chain(FromRows(KeepRows(Shows(q.from), q.from.rows)), ReferenceJoin(q, pick), n)
  }

  lemma RenderedAt(q: Query, pick: Pick, n: nat)
    requires 0 < n <= |q.joins|
    ensures RenderedChain(q, pick, n) ==
            JoinStep(q.joins[n - 1].kind, pick, n - 1, RenderedChain(q, pick, n - 1), q.joins[n - 1].table.rows,
                     RenderedOn(q, n - 1))
  {
    hide JoinStep, RenderedOn;
  }

  lemma ReferenceAt(q: Query, pick: Pick, n: nat)
    requires 0 < n <= |q.joins|
    ensures ReferenceChain(q, pick, n) ==
            JoinStep(q.joins[n - 1].kind, pick, n - 1, ReferenceChain(q, pick, n - 1),
                     KeepRows(Shows(q.joins[n - 1].table), q.joins[n - 1].table.rows), CallerOn(q, n - 1))
  {
    hide JoinStep, CallerOn, KeepRows, Shows;
  }

  lemma FirstRow(q: Query, pick: Pick, r: Row)
    ensures q.from.rows == [r] ==> [Some(r)] in RenderedChain(q, pick, 0)
    ensures KeepRows(Shows(q.from), q.from.rows) == [r] ==> [Some(r)] in ReferenceChain(q, pick, 0)
    ensures Width(1, RenderedChain(q, pick, 0))
  {
    hide KeepRows, Shows;
    assert FromRows([r])[0] == [Some(r)];
  }

  lemma {:induction false} RenderedWidth(q: Query, pick: Pick, n: nat)
    requires n <= |q.joins|
    ensures Width(n + 1, RenderedChain(q, pick, n))
  {
    hide RenderedChain;
    if n == 0 {
      FirstRow(q, pick, X);
    } else {
      hide *;
      RenderedWidth(q, pick, n - 1);
      RenderedAt(q, pick, n);
      StepWidth(q.joins[n - 1].kind, pick, n - 1, RenderedChain(q, pick, n - 1), q.joins[n - 1].table.rows,
                RenderedOn(q, n - 1));
    }
  }

  lemma RenderedFrom(q: Query, pick: Pick, n: nat, c: Combined)
    requires 0 < n <= |q.joins| && c in RenderedChain(q, pick, n)
    ensures From(n - 1, RenderedChain(q, pick, n - 1), q.joins[n - 1].table.rows, c)
  {
    hide *;
    RenderedAt(q, pick, n);
    StepFrom(q.joins[n - 1].kind, pick, n - 1, RenderedChain(q, pick, n - 1), q.joins[n - 1].table.rows,
             RenderedOn(q, n - 1), c);
  }

  lemma ReferenceFrom(q: Query, pick: Pick, n: nat, c: Combined)
    requires 0 < n <= |q.joins| && c in ReferenceChain(q, pick, n)
    ensures From(n - 1, ReferenceChain(q, pick, n - 1),
                 KeepRows(Shows(q.joins[n - 1].table), q.joins[n - 1].table.rows), c)
  {
    hide *;
    ReferenceAt(q, pick, n);
    StepFrom(q.joins[n - 1].kind, pick, n - 1, ReferenceChain(q, pick, n - 1),
             KeepRows(Shows(q.joins[n - 1].table), q.joins[n - 1].table.rows), CallerOn(q, n - 1), c);
  }

  /** A left row whose pairing is accepted survives join n - 1 of the rendered chain against a one-row table. */
  lemma RenderedKeeps(q: Query, pick: Pick, n: nat, l: Combined)
    requires 0 < n <= |q.joins| && l in RenderedChain(q, pick, n - 1)
    requires q.joins[n - 1].table.rows == [X] && RenderedOn(q, n - 1)(l + [Some(X)])
    ensures l + [Some(X)] in RenderedChain(q, pick, n)
  {
    hide *;
    RenderedAt(q, pick, n);
    StepKeeps(q.joins[n - 1].kind, pick, n - 1, RenderedChain(q, pick, n - 1), X, RenderedOn(q, n - 1), l);
  }

  lemma {:induction false} BeforeFull(q: Query, p: nat, pick: Pick, n: nat) returns (c: Combined)
    requires Guarded(q, p) && Slot(q, p) >= n && n <= |q.joins|
    ensures |c| == n + 1 && (forall k: nat :: k <= n ==> c[k] == Some(X))
    ensures c in RenderedChain(Leaking(q, p), pick, n)
  {
    hide Leaking, RenderedChain, Slot;
    var q' := Leaking(q, p);
    LeakingAt(q, p, n, None);
    if n == 0 {
      c := [Some(X)];
      FirstRow(q', pick, X);
    } else {
      assert q'.joins[n - 1].table.rows == [X];
      hide *;
      var l := BeforeFull(q, p, pick, n - 1);
      c := l + [Some(X)];
      LeakingOn(q, p, n - 1, c);
      RenderedKeeps(q', pick, n, l);
    }
  }

  /** The FULL JOIN keeps the hidden row: no pairing is accepted, and both sides are preserved. */
  lemma AtFull(q: Query, p: nat, pick: Pick, f: nat) returns (c: Combined)
    requires Guarded(q, p) && Slot(q, p) == f && q.joins[f].kind == Full
    ensures |c| == f + 2 && p < |c| && c[p] == Some(X)
    ensures c in RenderedChain(Leaking(q, p), pick, f + 1)
  {
    hide Leaking, RenderedChain, JoinStep, RenderedOn, Slot;
    assert p <= f + 1 by { SlotFacts(q, f); }
    var q' := Leaking(q, p);
    LeakingAt(q, p, f + 1, None);
    var left := RenderedChain(q', pick, f);
    var l := BeforeFull(q, p, pick, f);
    RenderedWidth(q', pick, f);
    forall l | l in left ensures !RenderedOn(q', f)(l + [Some(X)]) {
      LeakingOn(q, p, f, l + [Some(X)]);
    }
    FullKeepsUnmatched(pick, f, left, X, RenderedOn(q', f));
    c := if p <= f then l + [None] else Nulls(f + 1) + [Some(X)];
    RenderedAt(q', pick, f + 1);
  }

  lemma {:induction false} AfterFull(q: Query, p: nat, pick: Pick, f: nat, n: nat) returns (c: Combined)
    requires Guarded(q, p) && Slot(q, p) == f && q.joins[f].kind == Full
    requires f < n <= |q.joins|
    ensures |c| == n + 1 && p < |c| && c[p] == Some(X)
    ensures c in RenderedChain(Leaking(q, p), pick, n)
  {
    hide Leaking, RenderedChain, Slot;
    if n == f + 1 {
      c := AtFull(q, p, pick, f);
    } else {
      var q' := Leaking(q, p);
      LeakingAt(q, p, n, None);
      assert q'.joins[n - 1].table.rows == [X];
      hide *;
      var l := AfterFull(q, p, pick, f, n - 1);
      c := l + [Some(X)];
      LeakingOn(q, p, n - 1, c);
      RenderedKeeps(q', pick, n, l);
    }
  }

  lemma HiddenAtFrom(q: Query, p: nat, pick: Pick, c: Combined)
    requires p <= |q.joins| && KeepRows(Shows(TableAt(q, p)), TableAt(q, p).rows) == []
    requires c in ReferenceChain(q, pick, 0)
    ensures p != 0 && |c| == 1
  {
  }

  /** The reference never shows a row of an instance none of whose rows is visible. */
  lemma {:induction false} HiddenInReference(q: Query, p: nat, pick: Pick, n: nat, c: Combined)
    requires p <= |q.joins| && n <= |q.joins| && KeepRows(Shows(TableAt(q, p)), TableAt(q, p).rows) == []
    requires c in ReferenceChain(q, pick, n)
    ensures p < |c| ==> c[p] == None
    ensures |c| == n + 1
  {
    hide ReferenceChain, KeepRows, Shows;
    if n == 0 {
      HiddenAtFrom(q, p, pick, c);
    } else {
      ReferenceFrom(q, pick, n, c);
      var l := c[..|c| - 1];
      if l in ReferenceChain(q, pick, n - 1) {
        HiddenInReference(q, p, pick, n - 1, l);
      }
    }
  }

  lemma LeakingWheres(q: Query, p: nat)
    ensures Leaking(q, p).wheres == []
  {
  }

  lemma LeakReturned(q: Query, p: nat, pick: Pick, c: Combined)
    requires Guarded(q, p) && Slot(q, p) >= 0 && |c| == |q.joins| + 1
    requires c in RenderedChain(Leaking(q, p), pick, |q.joins|)
    ensures c in Returned(Leaking(q, p), pick)
  {
    hide Leaking, Chain, RenderedJoin, Keep;
    var q', n := Leaking(q, p), |q.joins|;
    LeakingAt(q, p, p, None);
    assert RenderedWhere(q')(c) by {
      WhereAcceptsIff(q', c);
      forall k: nat | k <= n && Slot(q', k) == -1 ensures Visible(TableAt(q', k), c[k]) {
        LeakingAt(q, p, k, c[k]);
      }
      LeakingWheres(q, p);
    }
    hide RenderedWhere;
    KeepIn(RenderedWhere(q'), RenderedChain(q', pick, n), c);
  }

  lemma LeakHidden(q: Query, p: nat, pick: Pick, c: Combined)
    requires Guarded(q, p) && c in Reference(Leaking(q, p), pick)
    ensures p < |c| && c[p] == None
  {
    hide Leaking, Visible;
    var q', n := Leaking(q, p), |q.joins|;
    LeakingAt(q, p, p, Some(X));
    assert KeepRows(Shows(TableAt(q', p)), [X]) == [];
    hide Chain, Keep, KeepRows, ReferenceJoin, CallerWhere;
    KeepIn(CallerWhere(q'), ReferenceChain(q', pick, n), c);
    HiddenInReference(q', p, pick, n, c);
  }

  /** A guarded table whose slot is a FULL JOIN: the statement returns the row its guard hides. */
  lemma FullLeaks(q: Query, p: nat, pick: Pick)
    requires Guarded(q, p) && Slot(q, p) >= 0 && q.joins[Slot(q, p)].kind == Full
    ensures SameShape(q, Leaking(q, p))
    ensures exists c :: c in Returned(Leaking(q, p), pick) && p < |c| && c[p] == Some(X)
    ensures forall c :: c in Reference(Leaking(q, p), pick) ==> p < |c| && c[p] == None
  {
    hide Leaking, Returned, Reference;
    LeakingAt(q, p, p, None);
    var c := AfterFull(q, p, pick, Slot(q, p), |q.joins|);
    LeakReturned(q, p, pick, c);
    forall c | c in Reference(Leaking(q, p), pick) ensures p < |c| && c[p] == None {
      LeakHidden(q, p, pick, c);
    }
  }

  // --------------------------------------- a guarded ASOF table loses a row

  /** Instance p holds a hidden row before a visible one. */
  ghost function Losing(q: Query, p: nat): Query {
    Refilled(q, p, [X, Y], OnlyY())
  }

  lemma LosingAt(q: Query, p: nat, k: nat)
    requires k <= |q.joins|
    ensures var q' := Losing(q, p);
            && SameShape(q, q') && q'.wheres == []
            && TableAt(q', k).rows == (if k == p then [X, Y] else [X])
            && (k > 0 ==> q'.joins[k - 1].kind == q.joins[k - 1].kind && q'.joins[k - 1].on == None)
  {
    RefilledAt(q, p, [X, Y], OnlyY(), k, None);
    RefilledShape(q, p, [X, Y], OnlyY());
  }

  function PickFirst(): Pick {
    (i: nat, l: Combined, ms: seq<Row>) => 0
  }

  /** Nothing is sent to the ON of an inner or ASOF join, so with no condition it accepts every pairing. */
  lemma NothingDue(q: Query, i: nat, c: Combined)
    requires i < |q.joins| && |c| == i + 2 && q.joins[i].kind == Asof && q.joins[i].on == None
    ensures RenderedOn(q, i)(c)
  {
    assert c == c[..i + 1] + [c[i + 1]];
    InnerFacts(q, i, c[..i + 1], c[i + 1]);
    OnAccepts(q, i, c);
  }

  lemma {:induction false} AsofTakesFirst(a: nat, left: seq<Combined>, on: Combined -> bool, c: Combined)
    requires c in LeftDriven(Asof, PickFirst(), a, left, [X, Y], on)
    requires Width(a + 1, left) && forall l: Combined :: |l| == a + 1 ==> on(l + [Some(X)])
    ensures |c| == a + 2 && c[a + 1] == Some(X)
  {
    var l := left[0];
    assert on(l + [Some(X)]);
    if c !in PerLeft(Asof, PickFirst(), a, l, Matches(l, [X, Y], on)) {
      AsofTakesFirst(a, left[1..], on, c);
    }
  }

  /** The rendered chain only ever pairs with the hidden first row. */
  lemma {:induction false} NeverY(q: Query, a: nat, n: nat, c: Combined)
    requires a < |q.joins| && q.joins[a].kind == Asof && n <= |q.joins|
    requires c in RenderedChain(Losing(q, a + 1), PickFirst(), n)
    ensures a + 1 < |c| ==> c[a + 1] != Some(Y)
    ensures |c| == n + 1
  {
    XIsNotY();
    hide RenderedChain, Losing;
    var q' := Losing(q, a + 1);
    LosingAt(q, a + 1, a + 1);
    RenderedWidth(q', PickFirst(), n);
    if n == a + 1 {
      FirstIsX(q, a, c);
    } else if n > 0 {
      RenderedFrom(q', PickFirst(), n, c);
      var l := c[..|c| - 1];
      if l in RenderedChain(q', PickFirst(), n - 1) {
        NeverY(q, a, n - 1, l);
      }
    }
  }

  lemma FirstIsX(q: Query, a: nat, c: Combined)
    requires a < |q.joins| && q.joins[a].kind == Asof
    requires c in RenderedChain(Losing(q, a + 1), PickFirst(), a + 1)
    ensures |c| == a + 2 && c[a + 1] == Some(X)
  {
    hide Losing;
    var q' := Losing(q, a + 1);
    LosingAt(q, a + 1, a + 1);
    var left := RenderedChain(q', PickFirst(), a);
    RenderedWidth(q', PickFirst(), a);
    forall l: Combined | |l| == a + 1 ensures RenderedOn(q', a)(l + [Some(X)]) {
      NothingDue(q', a, l + [Some(X)]);
    }
    hide RenderedOn, LeftDriven;
    AsofTakesFirst(a, left, RenderedOn(q', a), c);
  }

  lemma ReferenceKeeps(q: Query, pick: Pick, n: nat, l: Combined, r: Row)
    requires 0 < n <= |q.joins| && l in ReferenceChain(q, pick, n - 1)
    requires KeepRows(Shows(q.joins[n - 1].table), q.joins[n - 1].table.rows) == [r] && q.joins[n - 1].on == None
    ensures l + [Some(r)] in ReferenceChain(q, pick, n)
  {
    hide ReferenceChain, KeepRows, Shows;
    assert CallerOn(q, n - 1)(l + [Some(r)]);
    hide *;
    ReferenceAt(q, pick, n);
    StepKeeps(q.joins[n - 1].kind, pick, n - 1, ReferenceChain(q, pick, n - 1), r, CallerOn(q, n - 1), l);
  }

  lemma LosingRows(q: Query, p: nat, k: nat)
    requires Guarded(q, p) && k <= |q.joins|
    ensures var t := TableAt(Losing(q, p), k); KeepRows(Shows(t), t.rows) == [if k == p then Y else X]
  {
    var t := TableAt(Losing(q, p), k);
    XIsNotY();
    RefilledAt(q, p, [X, Y], OnlyY(), k, Some(X));
    RefilledAt(q, p, [X, Y], OnlyY(), k, Some(Y));
    hide Losing, Visible;
    assert k == p ==> !Shows(t)(X) && Shows(t)(Y);
    assert k != p ==> Shows(t)(X);
    assert [X, Y][1..] == [Y];
    assert KeepRows(Shows(t), [Y]) == if Shows(t)(Y) then [Y] else [];
  }

  lemma {:induction false} ReachesY(q: Query, p: nat, pick: Pick, n: nat) returns (c: Combined)
    requires Guarded(q, p) && n <= |q.joins|
    ensures |c| == n + 1 && (p <= n ==> c[p] == Some(Y))
    ensures c in ReferenceChain(Losing(q, p), pick, n)
  {
    hide Losing, ReferenceChain;
    var q' := Losing(q, p);
    LosingRows(q, p, n);
    LosingAt(q, p, n);
    var r := if n == p then Y else X;
    if n == 0 {
      c := [Some(r)];
      FirstRow(q', pick, r);
    } else {
      assert TableAt(q', n) == q'.joins[n - 1].table;
      hide *;
      var l := ReachesY(q, p, pick, n - 1);
      c := l + [Some(r)];
      ReferenceKeeps(q', pick, n, l, r);
    }
  }

  /** A guarded ASOF-joined table: a visible match is lost behind the hidden one the join chose. */
  lemma AsofLoses(q: Query, a: nat)
    requires a < |q.joins| && q.joins[a].kind == Asof && Guarded(q, a + 1)
    ensures SameShape(q, Losing(q, a + 1))
    ensures exists c :: c in Reference(Losing(q, a + 1), PickFirst()) && a + 1 < |c| && c[a + 1] == Some(Y)
    ensures forall c :: c in Returned(Losing(q, a + 1), PickFirst()) ==> a + 1 < |c| && c[a + 1] != Some(Y)
  {
    var q', n := Losing(q, a + 1), |q.joins|;
    LosingAt(q, a + 1, a + 1);
    hide Losing, Chain, Keep, ReferenceJoin, RenderedJoin, RenderedWhere;
    var c := ReachesY(q, a + 1, PickFirst(), n);
    KeepIn(CallerWhere(q'), ReferenceChain(q', PickFirst(), n), c);
    forall c | c in Returned(q', PickFirst()) ensures a + 1 < |c| && c[a + 1] != Some(Y) {
      KeepIn(RenderedWhere(q'), RenderedChain(q', PickFirst(), n), c);
      NeverY(q, a, n, c);
    }
  }

  // ------------------------------------------------------------------ exactness

  /** The rendered statement means the reference for all rows, guards, conditions and picks iff the shape is safe. */
  lemma PlacementExact(q: Query)
    ensures Safe(q) <==> forall q': Query, pick: Pick :: SameShape(q, q') ==> Returned(q', pick) == Reference(q', pick)
  {
    if Safe(q) {
      forall q': Query, pick: Pick | SameShape(q, q') ensures Returned(q', pick) == Reference(q', pick) {
        SafetyIsShape(q, q');
        PlacementPreservesMeaning(q', pick);
      }
    } else {
      var q', pick := Disagrees(q);
    }
  }

  lemma Disagrees(q: Query) returns (q': Query, pick: Pick)
    requires !Safe(q)
    ensures SameShape(q, q') && Returned(q', pick) != Reference(q', pick)
  {
    pick := PickFirst();
    if k: nat :| k <= |q.joins| && Slot(q, k) >= 0 && q.joins[Slot(q, k)].kind == Full && !Unguarded(TableAt(q, k)) {
      hide Returned, Reference, Leaking;
      q' := Leaking(q, k);
      FullLeaks(q, k, pick);
    } else {
      var a: nat :| a < |q.joins| && q.joins[a].kind == Asof && !Unguarded(q.joins[a].table);
      hide Returned, Reference, Losing;
      q' := Losing(q, a + 1);
      AsofLoses(q, a);
    }
  }

  // ---------------------------------------------------------- the code's refusal

  /** The shapes `CheckJoinPlacement` lets through: it looks at FROM and at the joined table only. */
  predicate Accepted(q: Query) {
    forall i :: 0 <= i < |q.joins| ==> RefusedAt(q, i) == None
  }

  function RefusedAt(q: Query, i: nat): Option<JoinError>
    requires i < |q.joins|
  {
    RefusedJoin(q.joins[i].kind, q.joins[i].table.ctx != [], q.from.ctx != [])
  }

  /** The first join that is refused decides. */
  method CheckJoinPlacement(q: Query) returns (err: Option<JoinError>)
    ensures err == None <==> Accepted(q)
    ensures err.Some? ==>
      exists i :: 0 <= i < |q.joins| && RefusedAt(q, i) == err && forall j :: 0 <= j < i ==> RefusedAt(q, j) == None
  {
    for i := 0 to |q.joins|
      invariant forall j :: 0 <= j < i ==> RefusedAt(q, j) == None
    {
      var j := q.joins[i];
      if j.kind == Full {
        var sides := [j.table, q.from];
        for s := 0 to |sides|
          invariant forall k :: 0 <= k < s ==> sides[k].ctx == []
        {
          if |sides[s].ctx| > 0 {
            assert RefusedAt(q, i) == Some(FullJoinScoped);
            return Some(FullJoinScoped);
          }
        }
        assert sides[0].ctx == [] && sides[1].ctx == [];
      } else if j.kind == Asof {
        if |j.table.ctx| > 0 {
          assert RefusedAt(q, i) == Some(AsofJoinScoped);
          return Some(AsofJoinScoped);
        }
      }
    }
    return None;
  }

  lemma AcceptedMeans(q: Query)
    ensures Accepted(q) <==> forall i :: 0 <= i < |q.joins| ==>
      && (q.joins[i].kind == Full ==> q.joins[i].table.ctx == [] && q.from.ctx == [])
      && (q.joins[i].kind == Asof ==> q.joins[i].table.ctx == [])
  {
    assert forall i :: 0 <= i < |q.joins| ==>
      (RefusedAt(q, i) == None <==>
       && (q.joins[i].kind == Full ==> q.joins[i].table.ctx == [] && q.from.ctx == [])
       && (q.joins[i].kind == Asof ==> q.joins[i].table.ctx == []));
  }

  ghost predicate OnlyContextFilters(q: Query) {
    forall k: nat :: k <= |q.joins| ==> TableAt(q, k).defaults == []
  }

  /**
    What the refusal misses: an accepted statement is safe unless a scoped table
    joined before a FULL JOIN still has its guard pending there.
   */
  lemma AcceptedIsSafeIff(q: Query)
    requires Accepted(q) && OnlyContextFilters(q)
    ensures Safe(q) <==> forall i: nat, k: nat ::
              i < |q.joins| && 1 <= k <= i && q.joins[i].kind == Full && Slot(q, k) == i ==> TableAt(q, k).ctx == []
  {
    AcceptedMeans(q);
    if forall i: nat, k: nat :: i < |q.joins| && 1 <= k <= i && q.joins[i].kind == Full && Slot(q, k) == i ==>
         TableAt(q, k).ctx == [] {
      forall i: nat, k: nat | i < |q.joins| && k <= |q.joins| && q.joins[i].kind == Full && Slot(q, k) == i
        ensures Unguarded(TableAt(q, k))
      {
        SlotFacts(q, i);
      }
      forall i: nat | i < |q.joins| && q.joins[i].kind == Asof ensures Unguarded(q.joins[i].table) {
        assert TableAt(q, i + 1) == q.joins[i].table;
      }
    }
  }

  lemma AcceptedIsShape(q: Query, q': Query)
    requires SameShape(q, q') && Accepted(q)
    ensures Accepted(q')
  {
    AcceptedMeans(q);
    AcceptedMeans(q');
    assert SameTable(TableAt(q, 0), TableAt(q', 0));
    forall i | 0 <= i < |q'.joins|
      ensures q'.joins[i].kind == Full ==> q'.joins[i].table.ctx == [] && q'.from.ctx == []
      ensures q'.joins[i].kind == Asof ==> q'.joins[i].table.ctx == []
    {
      assert SameTable(TableAt(q, i + 1), TableAt(q', i + 1));
    }
  }

  /** FROM a INNER JOIN b FULL JOIN c with only b scoped. */
  function InnerThenFull(g: Guard): Query {
    Query(Table([X], [], []),
          [Join(Inner, Table([X], [], [g]), None), Join(Full, Table([X], [], []), None)], [])
  }

  /** That statement is accepted, and rows exist on which it does not return the reference's. */
  lemma AcceptedLeak(g: Guard) returns (q': Query, pick: Pick)
    ensures Accepted(InnerThenFull(g)) && !Safe(InnerThenFull(g))
    ensures SameShape(InnerThenFull(g), q') && Accepted(q') && Returned(q', pick) != Reference(q', pick)
  {
    var q := InnerThenFull(g);
    assert Slot(q, 1) == 1 && TableAt(q, 1).ctx == [g];
    assert !Unguarded(TableAt(q, 1)) && q.joins[1].kind == Full;
    assert Accepted(q);
    hide InnerThenFull, Returned, Reference, Accepted, SameShape;
    q', pick := Disagrees(q);
    AcceptedIsShape(q, q');
  }

  /** FROM a RIGHT JOIN b FULL JOIN c with a scoped is refused although its guard never reaches the FULL JOIN. */
  lemma RefusedThoughSafe(g: Guard)
    ensures var open := Table([X], [], []);
            var q := Query(Table([X], [], [g]), [Join(Right, open, None), Join(Full, open, None)], []);
            !Accepted(q) && Safe(q)
  {
    var open := Table([X], [], []);
    var q := Query(Table([X], [], [g]), [Join(Right, open, None), Join(Full, open, None)], []);
    AcceptedMeans(q);
    assert q.joins[1].kind == Full && q.from.ctx == [g];
    assert Slot(q, 0) == 0;
  }
}
