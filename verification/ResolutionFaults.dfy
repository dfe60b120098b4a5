/**
  When resolution fails: exactly when something it reaches is at fault, and with one of those faults.
 */
module ResolutionFaults {
  import opened Wrappers
  import JoinChain
  import opened Resolution
  import opened ResolutionTheorems

  /**
    x is the fault of something reachable in e: a deferred statement, a foreign one or a filter that
    refuses, a join that is refused, a relation whose filters come back to it.
   */
  ghost predicate Fault(schema: Schema, chain: set<Rel>, e: Expr, x: Error)
    decreases |schema.Keys - chain|, e, 0
  {
    match e
    case Foreign(refuses) => refuses && x == Refused
    case Op(_, es) => AnyFault(schema, chain, es, x)
    case Select(s) =>
      if s.deferred then x == Deferred
      else if s.resolved then false
      else
        || AnyFault(schema, chain, s.operands, x)
        || ((!s.unscoped || s.keepCtx) &&
            (|| JoinFault(schema, s.from, s.joins, x)
             || (s.from.Some? && TableFault(schema, chain, s.from.value, x))
             || (exists j :: 0 <= j < |s.joins| && TableFault(schema, chain, s.joins[j].table, x))))
    case _ => false
  }

  ghost predicate AnyFault(schema: Schema, chain: set<Rel>, es: seq<Expr>, x: Error)
    decreases |schema.Keys - chain|, es, 1
  {
    exists i :: 0 <= i < |es| && Fault(schema, chain, es[i], x)
  }

  /** A FULL or ASOF join where the tables it reads have context filters. */
  ghost predicate JoinFault(schema: Schema, from: Option<Table>, js: seq<Joined>, x: Error) {
    exists j :: 0 <= j < |js| && RefusedAt(schema, from, js[j], x)
  }

  ghost predicate RefusedAt(schema: Schema, from: Option<Table>, join: Joined, x: Error) {
    var fromFiltered := from.Some? && Filtered(schema, from.value);
    var err := JoinChain.RefusedJoin(join.kind, Filtered(schema, join.table), fromFiltered);
    err.Some? && x == JoinRefused(err.value)
  }

  ghost predicate Filtered(schema: Schema, t: Table) {
    t.rel in schema && schema[t.rel].filters != []
  }

  ghost predicate TableFault(schema: Schema, chain: set<Rel>, t: Table, x: Error)
    decreases |schema.Keys - chain|, t, 1
  {
    FilterFault(schema, chain, t, x) || DefaultFault(schema, chain, t, x)
  }

  ghost predicate FilterFault(schema: Schema, chain: set<Rel>, t: Table, x: Error)
    decreases |schema.Keys - chain|, t, 0
  {
    FreshShrinks(schema, chain, t.rel);
    Filtered(schema, t) &&
    var fs := schema[t.rel].filters;
    if t.rel in chain then x == Cycle
    else
      || (Refuses in fs && x == Refused)
      || exists i :: 0 <= i < |fs| && fs[i].Adds? && Fault(schema, chain + {t.rel}, fs[i].pred, x)
  }

  ghost predicate DefaultFault(schema: Schema, chain: set<Rel>, t: Table, x: Error)
    decreases |schema.Keys - chain|, t, 0
  {
    FreshShrinks(schema, chain, t.rel);
    t.rel in schema &&
    var ds := schema[t.rel].defaults;
    if t.rel in chain then !Closed(ds) && x == Cycle
    else AnyFault(schema, chain + {t.rel}, ds, x)
  }

  lemma {:induction false} FaultsExpr(schema: Schema, chain: set<Rel>, e: Expr)
    ensures match WalkExpr(schema, Guarded(chain), e)
      case Fail(x) => Fault(schema, chain, e, x)
      case Done(_, _) => forall x :: !Fault(schema, chain, e, x)
    decreases |schema.Keys - chain|, Size(e), 2
  {
    match e
    case Op(_, es) => FaultsAll(schema, chain, es);
    case Select(s) => FaultsStmt(schema, chain, s);
    case _ =>
  }

  lemma {:induction false} FaultsAll(schema: Schema, chain: set<Rel>, es: seq<Expr>)
    ensures match WalkAll(schema, Guarded(chain), es)
      case Fail(x) => AnyFault(schema, chain, es, x)
      case Done(_, _) => forall x :: !AnyFault(schema, chain, es, x)
    decreases |schema.Keys - chain|, SizeAll(es), 0
  {
    if es != [] {
      FaultsExpr(schema, chain, es[0]);
      if WalkExpr(schema, Guarded(chain), es[0]).Done? {
        FaultsAll(schema, chain, es[1..]);
      }
      hide Fault;
      forall x ensures AnyFault(schema, chain, es, x) <==>
                       Fault(schema, chain, es[0], x) || AnyFault(schema, chain, es[1..], x)
      {
        if AnyFault(schema, chain, es[1..], x) {
          var i :| 0 <= i < |es| - 1 && Fault(schema, chain, es[1..][i], x);
          assert es[i + 1] == es[1..][i];
        }
        if AnyFault(schema, chain, es, x) && !Fault(schema, chain, es[0], x) {
          var i :| 0 <= i < |es| && Fault(schema, chain, es[i], x);
          assert es[1..][i - 1] == es[i];
        }
      }
    }
  }

  ghost predicate AnyFilterFault(schema: Schema, chain: set<Rel>, ts: seq<Table>, x: Error) {
    exists k :: 0 <= k < |ts| && FilterFault(schema, chain, ts[k], x)
  }

  ghost predicate AnyDefaultFault(schema: Schema, chain: set<Rel>, ts: seq<Table>, x: Error) {
    exists k :: 0 <= k < |ts| && DefaultFault(schema, chain, ts[k], x)
  }

  lemma {:induction false} FaultsJoins(schema: Schema, from: Option<Table>, js: seq<Joined>)
    ensures match CheckJoinPlacement(schema, from, js)
      case Some(x) => JoinFault(schema, from, js, x)
      case None => forall x :: !JoinFault(schema, from, js, x)
  {
    if js != [] {
      FaultsJoins(schema, from, js[1..]);
      hide RefusedAt;
      forall x ensures JoinFault(schema, from, js, x) <==>
                       RefusedAt(schema, from, js[0], x) || JoinFault(schema, from, js[1..], x)
      {
        if JoinFault(schema, from, js[1..], x) {
          var j :| 0 <= j < |js| - 1 && RefusedAt(schema, from, js[1..][j], x);
          assert js[j + 1] == js[1..][j];
        }
        if JoinFault(schema, from, js, x) && !RefusedAt(schema, from, js[0], x) {
          var j :| 0 <= j < |js| && RefusedAt(schema, from, js[j], x);
          assert js[1..][j - 1] == js[j];
        }
      }
    }
  }

  lemma {:induction false} FaultsStmt(schema: Schema, chain: set<Rel>, s: Stmt)
    ensures match WalkStmt(schema, Guarded(chain), s)
      case Fail(x) => Fault(schema, chain, Select(s), x)
      case Done(_, _) => forall x :: !Fault(schema, chain, Select(s), x)
    decreases |schema.Keys - chain|, 2 + SizeAll(s.operands), 1
  {
    hide WalkAll, WalkCtx, WalkDefaults, CheckJoinPlacement, JoinFault, FilterFault, DefaultFault;
    if !s.deferred && !s.resolved {
      FaultsAll(schema, chain, s.operands);
      FaultsJoins(schema, s.from, s.joins);
      FaultsCtx(schema, chain, TablesOf(s));
      FaultsDefaults(schema, chain, TablesOf(s));
      hide AnyFault, AnyFilterFault, AnyDefaultFault, TablesOf;
      forall x
        ensures Fault(schema, chain, Select(s), x) <==>
                || AnyFault(schema, chain, s.operands, x)
                || (!DropsContextFilters(s) &&
                    (|| JoinFault(schema, s.from, s.joins, x)
                     || AnyFilterFault(schema, chain, TablesOf(s), x)
                     || AnyDefaultFault(schema, chain, TablesOf(s), x)))
      {
        NamedTables(schema, chain, s, x);
      }
    }
  }

  /** A fault among the tables is one of FROM's or of a join's. */
  lemma NamedTables(schema: Schema, chain: set<Rel>, s: Stmt, x: Error)
    ensures AnyFilterFault(schema, chain, TablesOf(s), x) || AnyDefaultFault(schema, chain, TablesOf(s), x) <==>
            || (s.from.Some? && TableFault(schema, chain, s.from.value, x))
            || (exists j :: 0 <= j < |s.joins| && TableFault(schema, chain, s.joins[j].table, x))
  {
    hide FilterFault, DefaultFault, TablesOf;
    var ts := TablesOf(s);
    if k :| 0 <= k < |ts| && (FilterFault(schema, chain, ts[k], x) || DefaultFault(schema, chain, ts[k], x)) {
      TableIsNamed(s, k);
      assert TableFault(schema, chain, ts[k], x);
    }
    if s.from.Some? && TableFault(schema, chain, s.from.value, x) {
      TablesAreNamed(s);
      assert TableFault(schema, chain, ts[0], x);
    }
    if j :| 0 <= j < |s.joins| && TableFault(schema, chain, s.joins[j].table, x) {
      JoinIsNamed(s, j);
      assert TableFault(schema, chain, ts[if s.from.Some? then j + 1 else j], x);
    }
  }

  lemma {:induction false} FaultsCtx(schema: Schema, chain: set<Rel>, ts: seq<Table>)
    ensures match WalkCtx(schema, Guarded(chain), ts)
      case Fail(x) => AnyFilterFault(schema, chain, ts, x)
      case Done(_, _) => forall x :: !AnyFilterFault(schema, chain, ts, x)
    decreases |schema.Keys - chain|, 0, |ts| + 1
  {
    if ts != [] {
      FaultsFilters(schema, chain, ts[0]);
      FaultsCtx(schema, chain, ts[1..]);
      hide FilterFault, WalkFilters;
      forall x ensures AnyFilterFault(schema, chain, ts, x) <==>
                       FilterFault(schema, chain, ts[0], x) || AnyFilterFault(schema, chain, ts[1..], x)
      {
        forall k | 0 < k < |ts| ensures ts[k] == ts[1..][k - 1] {
        }
        if AnyFilterFault(schema, chain, ts[1..], x) {
          var k :| 0 <= k < |ts| - 1 && FilterFault(schema, chain, ts[1..][k], x);
          assert ts[k + 1] == ts[1..][k];
        }
      }
    }
  }

  lemma {:induction false} FaultsFilters(schema: Schema, chain: set<Rel>, t: Table)
    ensures match WalkFilters(schema, Guarded(chain), t)
      case Fail(x) => FilterFault(schema, chain, t, x)
      case Done(_, _) => forall x :: !FilterFault(schema, chain, t, x)
    decreases |schema.Keys - chain|, 0, 0
  {
    hide Answers, WalkAll;
    var fs := FiltersOf(schema, t.rel);
    EveryFilterAnswers(fs);
    if fs != [] && t.rel !in chain && Answers(fs).Ok? {
      FreshShrinks(schema, chain, t.rel);
      FaultsAll(schema, chain + {t.rel}, Answers(fs).value);
      hide AnyFault, Fault, AddedBy;
      forall x ensures FilterFault(schema, chain, t, x) <==> AnyFault(schema, chain + {t.rel}, Answers(fs).value, x) {
        AddedFaults(schema, chain + {t.rel}, fs, Answers(fs).value, x);
      }
    }
  }

  /** Walking what the filters answer is walking what each of them adds. */
  lemma AddedFaults(schema: Schema, chain: set<Rel>, fs: seq<Answer>, es: seq<Expr>, x: Error)
    requires AddedBy(fs, es)
    ensures AnyFault(schema, chain, es, x) <==>
            exists i :: 0 <= i < |fs| && fs[i].Adds? && Fault(schema, chain, fs[i].pred, x)
  {
    hide Fault;
    if AnyFault(schema, chain, es, x) {
      var k :| 0 <= k < |es| && Fault(schema, chain, es[k], x);
      var i := AddedAt(fs, k);
      assert fs[i].pred == es[k];
    }
  }

  /** The filter that adds the k-th predicate. */
  lemma {:induction false} AddedAt(fs: seq<Answer>, k: nat) returns (i: nat)
    requires k < Adding(fs, |fs|)
    ensures i < |fs| && fs[i].Adds? && Adding(fs, i) == k
  {
    if fs[0].Adds? && k == 0 {
      return 0;
    }
    i := AddedAt(fs[1..], if fs[0].Adds? then k - 1 else k);
    i := i + 1;
  }

  lemma {:induction false} FaultsDefaults(schema: Schema, chain: set<Rel>, ts: seq<Table>)
    ensures match WalkDefaults(schema, Guarded(chain), ts)
      case Fail(x) => AnyDefaultFault(schema, chain, ts, x)
      case Done(_, _) => forall x :: !AnyDefaultFault(schema, chain, ts, x)
    decreases |schema.Keys - chain|, 0, |ts| + 1
  {
    if ts != [] {
      FaultsDefault(schema, chain, ts[0]);
      FaultsDefaults(schema, chain, ts[1..]);
      hide DefaultFault, WalkDefault;
      forall x ensures AnyDefaultFault(schema, chain, ts, x) <==>
                       DefaultFault(schema, chain, ts[0], x) || AnyDefaultFault(schema, chain, ts[1..], x)
      {
        forall k | 0 < k < |ts| ensures ts[k] == ts[1..][k - 1] {
        }
        if AnyDefaultFault(schema, chain, ts[1..], x) {
          var k :| 0 <= k < |ts| - 1 && DefaultFault(schema, chain, ts[1..][k], x);
          assert ts[k + 1] == ts[1..][k];
        }
      }
    }
  }

  lemma {:induction false} FaultsDefault(schema: Schema, chain: set<Rel>, t: Table)
    ensures match WalkDefault(schema, Guarded(chain), t)
      case Fail(x) => DefaultFault(schema, chain, t, x)
      case Done(_, _) => forall x :: !DefaultFault(schema, chain, t, x)
    decreases |schema.Keys - chain|, 0, 0
  {
    hide WalkAll;
    if t.rel in schema && t.rel !in chain && MayHoldStatements(schema[t.rel].defaults) {
      FreshShrinks(schema, chain, t.rel);
      FaultsAll(schema, chain + {t.rel}, schema[t.rel].defaults);
    } else if t.rel in schema && t.rel !in chain {
      var ds := schema[t.rel].defaults;
      forall x ensures !AnyFault(schema, chain + {t.rel}, ds, x) {
        assert forall i :: 0 <= i < |ds| ==> !(ds[i].Op? || ds[i].Select? || ds[i].Foreign?);
      }
    }
  }

  /** Resolution succeeds exactly where nothing it reaches is at fault, and otherwise names such a fault. */
  lemma ResolvesIff(schema: Schema, e: Expr)
    ensures Resolve(schema, e).Done? <==> forall x :: !Fault(schema, {}, e, x)
    ensures Resolve(schema, e).Fail? ==> Fault(schema, {}, e, Resolve(schema, e).error)
  {
    FaultsExpr(schema, {}, e);
    var w := WalkExpr(schema, Guarded({}), e);
    assert w.Fail? ==> Fault(schema, {}, e, w.error);
    assert w.Done? ==> forall x :: !Fault(schema, {}, e, x);
  }
}
