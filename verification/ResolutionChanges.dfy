/** When resolution changes anything: exactly when a filter of something it reaches adds a predicate. */
module ResolutionChanges {
  import opened Wrappers
  import opened Resolution
  import opened ResolutionTheorems

  /** Some statement reached in e names a table that one of its filters adds a predicate to. */
  ghost predicate Grows(schema: Schema, chain: set<Rel>, e: Expr)
    decreases |schema.Keys - chain|, e, 0
  {
    match e
    case Op(_, es) => AnyGrows(schema, chain, es)
    case Select(s) =>
      && !s.resolved
      && (|| AnyGrows(schema, chain, s.operands)
          || ((!s.unscoped || s.keepCtx) &&
              (|| (s.from.Some? && TableGrows(schema, chain, s.from.value))
               || (exists j :: 0 <= j < |s.joins| && TableGrows(schema, chain, s.joins[j].table)))))
    case _ => false
  }

  ghost predicate AnyGrows(schema: Schema, chain: set<Rel>, es: seq<Expr>)
    decreases |schema.Keys - chain|, es, 1
  {
    exists i :: 0 <= i < |es| && Grows(schema, chain, es[i])
  }

  ghost predicate TableGrows(schema: Schema, chain: set<Rel>, t: Table)
    decreases |schema.Keys - chain|, t, 1
  {
    CtxAdds(schema, t) || DefaultGrows(schema, chain, t)
  }

  ghost predicate CtxAdds(schema: Schema, t: Table) {
    t.rel in schema && exists i :: 0 <= i < |schema[t.rel].filters| && schema[t.rel].filters[i].Adds?
  }

  /** A statement inside a default filter grows in turn. */
  ghost predicate DefaultGrows(schema: Schema, chain: set<Rel>, t: Table)
    decreases |schema.Keys - chain|, t, 0
  {
    FreshShrinks(schema, chain, t.rel);
    t.rel in schema && t.rel !in chain && AnyGrows(schema, chain + {t.rel}, schema[t.rel].defaults)
  }

  lemma AnyGrowsCons(schema: Schema, chain: set<Rel>, es: seq<Expr>)
    requires es != []
    ensures AnyGrows(schema, chain, es) <==> Grows(schema, chain, es[0]) || AnyGrows(schema, chain, es[1..])
  {
    hide Grows;
    if AnyGrows(schema, chain, es[1..]) {
      var i :| 0 <= i < |es| - 1 && Grows(schema, chain, es[1..][i]);
      assert es[i + 1] == es[1..][i];
    }
    if AnyGrows(schema, chain, es) && !Grows(schema, chain, es[0]) {
      var i :| 0 <= i < |es| && Grows(schema, chain, es[i]);
      assert es[1..][i - 1] == es[i];
    }
  }

  lemma {:induction false} ChangesExpr(schema: Schema, chain: set<Rel>, e: Expr)
    requires WalkExpr(schema, Guarded(chain), e).Done?
    ensures WalkExpr(schema, Guarded(chain), e).changed <==> Grows(schema, chain, e)
    decreases |schema.Keys - chain|, Size(e), 2
  {
    match e
    case Op(_, es) => ChangesAll(schema, chain, es);
    case Select(s) => ChangesStmt(schema, chain, s);
    case _ =>
  }

  lemma {:induction false} ChangesAll(schema: Schema, chain: set<Rel>, es: seq<Expr>)
    requires WalkAll(schema, Guarded(chain), es).Done?
    ensures WalkAll(schema, Guarded(chain), es).changed <==> AnyGrows(schema, chain, es)
    decreases |schema.Keys - chain|, SizeAll(es), 0
  {
    if es != [] {
      ChangesExpr(schema, chain, es[0]);
      ChangesAll(schema, chain, es[1..]);
      AnyGrowsCons(schema, chain, es);
      hide Grows, AnyGrows;
    }
  }

  lemma {:induction false} ChangesStmt(schema: Schema, chain: set<Rel>, s: Stmt)
    requires WalkStmt(schema, Guarded(chain), s).Done?
    ensures WalkStmt(schema, Guarded(chain), s).changed <==> Grows(schema, chain, Select(s))
    decreases |schema.Keys - chain|, 2 + SizeAll(s.operands), 1
  {
    hide WalkAll, WalkCtx, WalkDefaults, CheckJoinPlacement, AnyGrows, CtxAdds, DefaultGrows;
    if !s.resolved {
      ChangesAll(schema, chain, s.operands);
      if !DropsContextFilters(s) {
        ChangesCtx(schema, chain, TablesOf(s));
        ChangesDefaults(schema, chain, TablesOf(s));
        TablesGrow(schema, chain, s);
        hide TablesOf, TableGrows;
      }
    }
  }

  ghost predicate AnyCtxAdds(schema: Schema, ts: seq<Table>) {
    exists k :: 0 <= k < |ts| && CtxAdds(schema, ts[k])
  }

  ghost predicate AnyDefaultGrows(schema: Schema, chain: set<Rel>, ts: seq<Table>) {
    exists k :: 0 <= k < |ts| && DefaultGrows(schema, chain, ts[k])
  }

  /** The tables of a statement are FROM's and the joins'. */
  lemma TablesGrow(schema: Schema, chain: set<Rel>, s: Stmt)
    ensures AnyCtxAdds(schema, TablesOf(s)) || AnyDefaultGrows(schema, chain, TablesOf(s)) <==>
            || (s.from.Some? && TableGrows(schema, chain, s.from.value))
            || (exists j :: 0 <= j < |s.joins| && TableGrows(schema, chain, s.joins[j].table))
  {
    hide CtxAdds, DefaultGrows, TablesOf;
    var ts := TablesOf(s);
    if k :| 0 <= k < |ts| && (CtxAdds(schema, ts[k]) || DefaultGrows(schema, chain, ts[k])) {
      TableIsNamed(s, k);
      assert TableGrows(schema, chain, ts[k]);
    }
    if s.from.Some? && TableGrows(schema, chain, s.from.value) {
      TablesAreNamed(s);
      assert TableGrows(schema, chain, ts[0]);
    }
    if j :| 0 <= j < |s.joins| && TableGrows(schema, chain, s.joins[j].table) {
      JoinIsNamed(s, j);
      assert TableGrows(schema, chain, ts[if s.from.Some? then j + 1 else j]);
    }
  }

  lemma {:induction false} ChangesCtx(schema: Schema, chain: set<Rel>, ts: seq<Table>)
    requires WalkCtx(schema, Guarded(chain), ts).Done?
    ensures WalkCtx(schema, Guarded(chain), ts).changed <==> AnyCtxAdds(schema, ts)
  {
    if ts != [] {
      ChangesFilters(schema, chain, ts[0]);
      ChangesCtx(schema, chain, ts[1..]);
      hide CtxAdds, WalkFilters;
      forall k | 0 < k < |ts| ensures ts[k] == ts[1..][k - 1] {
      }
      if AnyCtxAdds(schema, ts[1..]) {
        var k :| 0 <= k < |ts| - 1 && CtxAdds(schema, ts[1..][k]);
        assert ts[k + 1] == ts[1..][k];
      }
    }
  }

  lemma ChangesFilters(schema: Schema, chain: set<Rel>, t: Table)
    requires WalkFilters(schema, Guarded(chain), t).Done?
    ensures WalkFilters(schema, Guarded(chain), t).value != [] <==> CtxAdds(schema, t)
  {
    hide Answers, WalkAll;
    var fs := FiltersOf(schema, t.rel);
    if fs != [] {
      EveryFilterAnswers(fs);
      SomeAdds(fs);
    }
  }

  lemma {:induction false} SomeAdds(fs: seq<Answer>)
    ensures Adding(fs, |fs|) > 0 <==> exists i :: 0 <= i < |fs| && fs[i].Adds?
  {
    if fs != [] {
      SomeAdds(fs[1..]);
      if i :| 0 <= i < |fs[1..]| && fs[1..][i].Adds? {
        assert fs[i + 1].Adds?;
      }
    }
  }

  lemma {:induction false} ChangesDefaults(schema: Schema, chain: set<Rel>, ts: seq<Table>)
    requires WalkDefaults(schema, Guarded(chain), ts).Done?
    ensures WalkDefaults(schema, Guarded(chain), ts).changed <==> AnyDefaultGrows(schema, chain, ts)
    decreases |schema.Keys - chain|, 0, |ts| + 1
  {
    if ts != [] {
      ChangesDefault(schema, chain, ts[0]);
      ChangesDefaults(schema, chain, ts[1..]);
      hide DefaultGrows, WalkDefault;
      forall k | 0 < k < |ts| ensures ts[k] == ts[1..][k - 1] {
      }
      if AnyDefaultGrows(schema, chain, ts[1..]) {
        var k :| 0 <= k < |ts| - 1 && DefaultGrows(schema, chain, ts[1..][k]);
        assert ts[k + 1] == ts[1..][k];
      }
    }
  }

  lemma {:induction false} ChangesDefault(schema: Schema, chain: set<Rel>, t: Table)
    requires WalkDefault(schema, Guarded(chain), t).Done?
    ensures WalkDefault(schema, Guarded(chain), t).value.Added? <==> DefaultGrows(schema, chain, t)
    decreases |schema.Keys - chain|, 0, 0
  {
    hide WalkAll;
    if t.rel in schema && t.rel !in chain {
      var ds := schema[t.rel].defaults;
      if MayHoldStatements(ds) {
        FreshShrinks(schema, chain, t.rel);
        ChangesAll(schema, chain + {t.rel}, ds);
      } else {
        assert forall i :: 0 <= i < |ds| ==> !(ds[i].Op? || ds[i].Select? || ds[i].Foreign?);
        assert !AnyGrows(schema, chain + {t.rel}, ds);
      }
    } else if t.rel in schema {
      assert !MayHoldStatements(schema[t.rel].defaults);
    }
  }

  /** The caller's own expression comes back exactly when no filter of anything it reaches adds a predicate. */
  lemma ChangesIff(schema: Schema, e: Expr)
    requires Resolve(schema, e).Done?
    ensures Resolve(schema, e).changed <==> Grows(schema, {}, e)
    ensures !Resolve(schema, e).changed && Raw(e) ==> Resolve(schema, e).value == e
  {
    ChangesExpr(schema, {}, e);
    if Raw(e) {
      OnlyAdds(schema, Guarded({}), e);
    }
  }
}
