/**
  What resolution guarantees: it adds predicates and changes nothing else; every
  statement reachable in the result carries its tables' filters; the chain guard
  changes no answer except to report an expansion that no depth would complete.
 */
module ResolutionTheorems {
  import opened Wrappers
  import JoinChain
  import opened Resolution

  // ------------------------------------------------------ only predicates added

  /** The statement without what a resolution adds. */
  function Erase(e: Expr): Expr
    decreases e, 0
  {
    match e
    case Op(parts, es) => Op(parts, EraseAll(es))
    case Select(s) => Select(s.(operands := EraseAll(s.operands), ctx := [], defaults := [], resolved := false))
    case Renamed(_, inner) => Erase(inner)
    case _ => e
  }

  function EraseAll(es: seq<Expr>): (rs: seq<Expr>)
    ensures |rs| == |es|
    decreases es, 1
  {
    if es == [] then [] else [Erase(es[0])] + EraseAll(es[1..])
  }

  /** An expression as a caller builds it. */
  predicate Raw(e: Expr)
    decreases e, 0
  {
    match e
    case Op(_, es) => AllRaw(es)
    case Select(s) => AllRaw(s.operands) && s.ctx == [] && s.defaults == [] && !s.resolved
    case Renamed(_, _) => false
    case _ => true
  }

  predicate AllRaw(es: seq<Expr>)
    decreases es, 1
  {
    es == [] || (Raw(es[0]) && AllRaw(es[1..]))
  }

  predicate RawAnswers(fs: seq<Answer>) {
    forall i :: 0 <= i < |fs| && fs[i].Adds? ==> Raw(fs[i].pred)
  }

  predicate RawSchema(schema: Schema) {
    forall rel :: rel in schema ==> RawAnswers(schema[rel].filters) && AllRaw(schema[rel].defaults)
  }

  lemma {:induction false} EraseRaw(e: Expr)
    requires Raw(e)
    ensures Erase(e) == e
    decreases e, 0
  {
    match e
    case Op(_, es) => EraseAllRaw(es);
    case Select(s) => EraseAllRaw(s.operands);
    case _ =>
  }

  lemma {:induction false} EraseAllRaw(es: seq<Expr>)
    requires AllRaw(es)
    ensures EraseAll(es) == es
    decreases es, 1
  {
    if es != [] {
      EraseRaw(es[0]);
      EraseAllRaw(es[1..]);
    }
  }

  /** Resolving changes nothing of the caller's expression; unchanged means the same expression. */
  lemma {:induction false} OnlyAdds(schema: Schema, m: Mode, e: Expr)
    requires Raw(e) && WalkExpr(schema, m, e).Done?
    ensures var w := WalkExpr(schema, m, e); Erase(w.value) == e && (!w.changed ==> w.value == e)
    decreases e, 0
  {
    match e
    case Op(_, es) => OnlyAddsAll(schema, m, es);
    case Select(s) =>
      hide WalkAll, WalkCtx, WalkDefaults, CheckJoinPlacement, TablesOf;
      EraseRaw(e);
      if !s.resolved {
        OnlyAddsAll(schema, m, s.operands);
      }
    case _ => EraseRaw(e);
  }

  lemma {:induction false} OnlyAddsAll(schema: Schema, m: Mode, es: seq<Expr>)
    requires AllRaw(es) && WalkAll(schema, m, es).Done?
    ensures var w := WalkAll(schema, m, es); EraseAll(w.value) == es && (!w.changed ==> w.value == es)
    decreases es, 1
  {
    if es != [] {
      OnlyAdds(schema, m, es[0]);
      OnlyAddsAll(schema, m, es[1..]);
      var r, rs := WalkExpr(schema, m, es[0]).value, WalkAll(schema, m, es[1..]).value;
      assert ([r] + rs)[1..] == rs;
    }
  }

  // --------------------------------------------------- the guard against cycles

  lemma {:induction false} AgreeExpr(schema: Schema, m: Mode, n: nat, e: Expr)
    requires !m.Fueled? && Measure(schema, m) <= n
    requires WalkExpr(schema, m, e) != Fail(Cycle)
    ensures WalkExpr(schema, Fueled(n), e) == WalkExpr(schema, m, e)
    decreases Measure(schema, m), Size(e), 2
  {
    hide Measure;
    match e
    case Op(_, es) => AgreeAll(schema, m, n, es);
    case Select(s) => AgreeStmt(schema, m, n, s);
    case _ =>
  }

  lemma {:induction false} AgreeAll(schema: Schema, m: Mode, n: nat, es: seq<Expr>)
    requires !m.Fueled? && Measure(schema, m) <= n
    requires WalkAll(schema, m, es) != Fail(Cycle)
    ensures WalkAll(schema, Fueled(n), es) == WalkAll(schema, m, es)
    decreases Measure(schema, m), SizeAll(es), 0
  {
    hide Measure;
    if es != [] {
      AgreeExpr(schema, m, n, es[0]);
      if WalkExpr(schema, m, es[0]).Done? {
        AgreeAll(schema, m, n, es[1..]);
      }
    }
  }

  lemma {:induction false} AgreeStmt(schema: Schema, m: Mode, n: nat, s: Stmt)
    requires !m.Fueled? && Measure(schema, m) <= n
    requires WalkStmt(schema, m, s) != Fail(Cycle)
    ensures WalkStmt(schema, Fueled(n), s) == WalkStmt(schema, m, s)
    decreases Measure(schema, m), 2 + SizeAll(s.operands), 1
  {
    hide Measure, WalkAll, WalkCtx, WalkDefaults, CheckJoinPlacement, TablesOf;
    if !s.deferred && !s.resolved {
      AgreeAll(schema, m, n, s.operands);
      if WalkAll(schema, m, s.operands).Done? && !DropsContextFilters(s)
         && CheckJoinPlacement(schema, s.from, s.joins).None? {
        AgreeCtx(schema, m, n, TablesOf(s));
        if WalkCtx(schema, m, TablesOf(s)).Done? {
          AgreeDefaults(schema, m, n, TablesOf(s));
        }
      }
    }
  }

  lemma {:induction false} AgreeCtx(schema: Schema, m: Mode, n: nat, ts: seq<Table>)
    requires !m.Fueled? && Measure(schema, m) <= n
    requires WalkCtx(schema, m, ts) != Fail(Cycle)
    ensures WalkCtx(schema, Fueled(n), ts) == WalkCtx(schema, m, ts)
    decreases Measure(schema, m), 0, |ts| + 1
  {
    hide Measure, WalkFilters;
    if ts != [] {
      AgreeFilters(schema, m, n, ts[0]);
      if WalkFilters(schema, m, ts[0]).Done? {
        AgreeCtx(schema, m, n, ts[1..]);
      }
    }
  }

  lemma {:induction false} AgreeFilters(schema: Schema, m: Mode, n: nat, t: Table)
    requires !m.Fueled? && Measure(schema, m) <= n
    requires WalkFilters(schema, m, t) != Fail(Cycle)
    ensures WalkFilters(schema, Fueled(n), t) == WalkFilters(schema, m, t)
    decreases Measure(schema, m), 0, 0
  {
    hide Measure, WalkAll, Restate, Answers;
    var fs := FiltersOf(schema, t.rel);
    if fs != [] {
      EnterDecreases(schema, m, t.rel, Contexts);
      if Answers(fs).Ok? {
        AgreeAll(schema, Enter(m, t.rel, Contexts).value, n - 1, Answers(fs).value);
      }
    }
  }

  lemma {:induction false} AgreeDefaults(schema: Schema, m: Mode, n: nat, ts: seq<Table>)
    requires !m.Fueled? && Measure(schema, m) <= n
    requires WalkDefaults(schema, m, ts) != Fail(Cycle)
    ensures WalkDefaults(schema, Fueled(n), ts) == WalkDefaults(schema, m, ts)
    decreases Measure(schema, m), 0, |ts| + 1
  {
    hide Measure, WalkDefault;
    if ts != [] {
      AgreeDefault(schema, m, n, ts[0]);
      if WalkDefault(schema, m, ts[0]).Done? {
        AgreeDefaults(schema, m, n, ts[1..]);
      }
    }
  }

  lemma {:induction false} AgreeDefault(schema: Schema, m: Mode, n: nat, t: Table)
    requires !m.Fueled? && Measure(schema, m) <= n
    requires WalkDefault(schema, m, t) != Fail(Cycle)
    ensures WalkDefault(schema, Fueled(n), t) == WalkDefault(schema, m, t)
    decreases Measure(schema, m), 0, 0
  {
    hide Measure, WalkAll, Restate;
    var ds := DefaultsOf(schema, t.rel);
    if t.rel in schema {
      hide MayHoldStatements;
      if MayHoldStatements(ds) {
        EnterDecreases(schema, m, t.rel, Defaults);
        AgreeAll(schema, Enter(m, t.rel, Defaults).value, n - 1, ds);
      }
    }
  }

  /** No statement over this relation can be expanded within n nested entries. */
  ghost predicate RelFails(schema: Schema, rel: Rel, n: nat) {
    || WalkFilters(schema, Fueled(n), Table(rel, "")).Fail?
    || WalkDefault(schema, Fueled(n), Table(rel, "")).Fail?
  }

  ghost predicate ChainFails(schema: Schema, chain: set<Rel>, n: nat) {
    forall rel, k: nat :: rel in chain && k <= n ==> RelFails(schema, rel, k)
  }

  lemma {:induction false} EndlessExpr(schema: Schema, chain: set<Rel>, n: nat, e: Expr)
    requires WalkExpr(schema, Guarded(chain), e) == Fail(Cycle) && ChainFails(schema, chain, n)
    ensures WalkExpr(schema, Fueled(n), e).Fail?
    decreases n, Size(e), 2
  {
    match e
    case Op(_, es) => EndlessAll(schema, chain, n, es);
    case Select(s) => EndlessStmt(schema, chain, n, s);
  }

  lemma {:induction false} EndlessAll(schema: Schema, chain: set<Rel>, n: nat, es: seq<Expr>)
    requires WalkAll(schema, Guarded(chain), es) == Fail(Cycle) && ChainFails(schema, chain, n)
    ensures WalkAll(schema, Fueled(n), es).Fail?
    decreases n, SizeAll(es), 0
  {
    if WalkExpr(schema, Guarded(chain), es[0]).Fail? {
      EndlessExpr(schema, chain, n, es[0]);
    } else {
      EndlessAll(schema, chain, n, es[1..]);
    }
  }

  lemma {:induction false} EndlessStmt(schema: Schema, chain: set<Rel>, n: nat, s: Stmt)
    requires WalkStmt(schema, Guarded(chain), s) == Fail(Cycle) && ChainFails(schema, chain, n)
    ensures WalkStmt(schema, Fueled(n), s).Fail?
    decreases n, 2 + SizeAll(s.operands), 1
  {
    hide WalkAll, WalkCtx, WalkDefaults, CheckJoinPlacement, TablesOf;
    var m, ts := Guarded(chain), TablesOf(s);
    if WalkAll(schema, m, s.operands).Fail? {
      EndlessAll(schema, chain, n, s.operands);
    } else if WalkCtx(schema, m, ts).Fail? {
      assert ts[0..] == ts;
      EndlessCtx(schema, chain, n, ts, 0);
    } else {
      assert ts[0..] == ts;
      EndlessDefaults(schema, chain, n, ts, 0);
    }
  }

  /** Both kinds of filter of every table of a statement are walked, so one that fails fails the statement. */
  lemma {:induction false} TablesFail(schema: Schema, n: nat, ts: seq<Table>, k: nat)
    requires k < |ts| && RelFails(schema, ts[k].rel, n)
    ensures WalkCtx(schema, Fueled(n), ts).Fail? || WalkDefaults(schema, Fueled(n), ts).Fail?
  {
    if k > 0 {
      TablesFail(schema, n, ts[1..], k - 1);
    }
  }

  lemma {:induction false} EndlessCtx(schema: Schema, chain: set<Rel>, n: nat, ts: seq<Table>, k: nat)
    requires k <= |ts| && WalkCtx(schema, Guarded(chain), ts[k..]) == Fail(Cycle) && ChainFails(schema, chain, n)
    ensures WalkCtx(schema, Fueled(n), ts).Fail? || WalkDefaults(schema, Fueled(n), ts).Fail?
    decreases n, 0, |ts| - k
  {
    var t := ts[k];
    if WalkFilters(schema, Guarded(chain), t).Fail? {
      if t.rel !in chain {
        EndlessFilters(schema, chain, n, t);
      }
      TablesFail(schema, n, ts, k);
    } else {
      assert ts[k..][1..] == ts[k + 1..];
      EndlessCtx(schema, chain, n, ts, k + 1);
    }
  }

  lemma {:induction false} EndlessFilters(schema: Schema, chain: set<Rel>, n: nat, t: Table)
    requires WalkFilters(schema, Guarded(chain), t) == Fail(Cycle) && t.rel !in chain && ChainFails(schema, chain, n)
    ensures WalkFilters(schema, Fueled(n), Table(t.rel, "")).Fail?
    decreases n, 0, 0
  {
    if n > 0 && Answers(FiltersOf(schema, t.rel)).Ok? {
      forall k: nat | k < n ensures RelFails(schema, t.rel, k) {
        EndlessFilters(schema, chain, k, t);
      }
      EndlessAll(schema, chain + {t.rel}, n - 1, Answers(FiltersOf(schema, t.rel)).value);
    }
  }

  lemma {:induction false} EndlessDefaults(schema: Schema, chain: set<Rel>, n: nat, ts: seq<Table>, k: nat)
    requires k <= |ts| && WalkDefaults(schema, Guarded(chain), ts[k..]) == Fail(Cycle) && ChainFails(schema, chain, n)
    ensures WalkCtx(schema, Fueled(n), ts).Fail? || WalkDefaults(schema, Fueled(n), ts).Fail?
    decreases n, 0, |ts| - k
  {
    var t := ts[k];
    if WalkDefault(schema, Guarded(chain), t).Fail? {
      if t.rel !in chain {
        EndlessDefault(schema, chain, n, t);
      }
      TablesFail(schema, n, ts, k);
    } else {
      assert ts[k..][1..] == ts[k + 1..];
      EndlessDefaults(schema, chain, n, ts, k + 1);
    }
  }

  lemma {:induction false} EndlessDefault(schema: Schema, chain: set<Rel>, n: nat, t: Table)
    requires WalkDefault(schema, Guarded(chain), t) == Fail(Cycle) && t.rel !in chain && ChainFails(schema, chain, n)
    ensures WalkDefault(schema, Fueled(n), Table(t.rel, "")).Fail?
    decreases n, 0, 0
  {
    if n > 0 {
      forall k: nat | k < n ensures RelFails(schema, t.rel, k) {
        EndlessDefault(schema, chain, k, t);
      }
      EndlessAll(schema, chain + {t.rel}, n - 1, DefaultsOf(schema, t.rel));
    }
  }

  /**
    A reported cycle is a statement no number of nested entries expands; any other
    answer, refusals included, is the answer of the unguarded expansion.
   */
  lemma GuardIsSound(schema: Schema, e: Expr)
    ensures Resolve(schema, e) == Fail(Cycle) ==> forall n: nat :: WalkExpr(schema, Fueled(n), e).Fail?
    ensures Resolve(schema, e) != Fail(Cycle) ==>
              forall n: nat :: |schema| <= n ==> WalkExpr(schema, Fueled(n), e) == Resolve(schema, e)
  {
    if Resolve(schema, e) == Fail(Cycle) {
      forall n: nat ensures WalkExpr(schema, Fueled(n), e).Fail? {
        EndlessExpr(schema, {}, n, e);
      }
    } else {
      assert schema.Keys - {} == schema.Keys;
      forall n: nat | |schema| <= n ensures WalkExpr(schema, Fueled(n), e) == Resolve(schema, e) {
        AgreeExpr(schema, Guarded({}), n, e);
      }
    }
  }

  // -------------------------------------------------- what would never have ended

  /** At a smaller depth the expansion gives the same answer, or runs out before it has one. */
  lemma {:induction false} SameOrOut(schema: Schema, m: Mode, n: nat, e: Expr)
    requires !m.Fueled? && WalkExpr(schema, m, e) != Fail(Cycle)
    ensures WalkExpr(schema, Fueled(n), e) == WalkExpr(schema, m, e)
         || WalkExpr(schema, Fueled(n), e) == Fail(OutOfFuel)
    decreases Measure(schema, m), Size(e), 2
  {
    hide Measure;
    match e
    case Op(_, es) => SameOrOutAll(schema, m, n, es);
    case Select(s) => SameOrOutStmt(schema, m, n, s);
    case _ =>
  }

  lemma {:induction false} SameOrOutAll(schema: Schema, m: Mode, n: nat, es: seq<Expr>)
    requires !m.Fueled? && WalkAll(schema, m, es) != Fail(Cycle)
    ensures WalkAll(schema, Fueled(n), es) == WalkAll(schema, m, es)
         || WalkAll(schema, Fueled(n), es) == Fail(OutOfFuel)
    decreases Measure(schema, m), SizeAll(es), 0
  {
    hide Measure;
    if es != [] {
      SameOrOut(schema, m, n, es[0]);
      if WalkExpr(schema, m, es[0]).Done? {
        SameOrOutAll(schema, m, n, es[1..]);
      }
    }
  }

  lemma {:induction false} SameOrOutStmt(schema: Schema, m: Mode, n: nat, s: Stmt)
    requires !m.Fueled? && WalkStmt(schema, m, s) != Fail(Cycle)
    ensures WalkStmt(schema, Fueled(n), s) == WalkStmt(schema, m, s)
         || WalkStmt(schema, Fueled(n), s) == Fail(OutOfFuel)
    decreases Measure(schema, m), 2 + SizeAll(s.operands), 1
  {
    hide Measure, WalkAll, WalkCtx, WalkDefaults, CheckJoinPlacement, TablesOf;
    if !s.deferred && !s.resolved {
      SameOrOutAll(schema, m, n, s.operands);
      if WalkAll(schema, m, s.operands).Done? && !DropsContextFilters(s)
         && CheckJoinPlacement(schema, s.from, s.joins).None? {
        SameOrOutCtx(schema, m, n, TablesOf(s));
        if WalkCtx(schema, m, TablesOf(s)).Done? {
          SameOrOutDefaults(schema, m, n, TablesOf(s));
        }
      }
    }
  }

  lemma {:induction false} SameOrOutCtx(schema: Schema, m: Mode, n: nat, ts: seq<Table>)
    requires !m.Fueled? && WalkCtx(schema, m, ts) != Fail(Cycle)
    ensures WalkCtx(schema, Fueled(n), ts) == WalkCtx(schema, m, ts)
         || WalkCtx(schema, Fueled(n), ts) == Fail(OutOfFuel)
    decreases Measure(schema, m), 0, |ts| + 1
  {
    hide Measure, WalkFilters;
    if ts != [] {
      SameOrOutFilters(schema, m, n, ts[0]);
      if WalkFilters(schema, m, ts[0]).Done? {
        SameOrOutCtx(schema, m, n, ts[1..]);
      }
    }
  }

  lemma {:induction false} SameOrOutFilters(schema: Schema, m: Mode, n: nat, t: Table)
    requires !m.Fueled? && WalkFilters(schema, m, t) != Fail(Cycle)
    ensures WalkFilters(schema, Fueled(n), t) == WalkFilters(schema, m, t)
         || WalkFilters(schema, Fueled(n), t) == Fail(OutOfFuel)
    decreases Measure(schema, m), 0, 0
  {
    hide Measure, WalkAll, Restate, Answers;
    var fs := FiltersOf(schema, t.rel);
    if fs != [] && n > 0 {
      EnterDecreases(schema, m, t.rel, Contexts);
      if Answers(fs).Ok? {
        SameOrOutAll(schema, Enter(m, t.rel, Contexts).value, n - 1, Answers(fs).value);
      }
    }
  }

  lemma {:induction false} SameOrOutDefaults(schema: Schema, m: Mode, n: nat, ts: seq<Table>)
    requires !m.Fueled? && WalkDefaults(schema, m, ts) != Fail(Cycle)
    ensures WalkDefaults(schema, Fueled(n), ts) == WalkDefaults(schema, m, ts)
         || WalkDefaults(schema, Fueled(n), ts) == Fail(OutOfFuel)
    decreases Measure(schema, m), 0, |ts| + 1
  {
    hide Measure, WalkDefault;
    if ts != [] {
      SameOrOutDefault(schema, m, n, ts[0]);
      if WalkDefault(schema, m, ts[0]).Done? {
        SameOrOutDefaults(schema, m, n, ts[1..]);
      }
    }
  }

  lemma {:induction false} SameOrOutDefault(schema: Schema, m: Mode, n: nat, t: Table)
    requires !m.Fueled? && WalkDefault(schema, m, t) != Fail(Cycle)
    ensures WalkDefault(schema, Fueled(n), t) == WalkDefault(schema, m, t)
         || WalkDefault(schema, Fueled(n), t) == Fail(OutOfFuel)
    decreases Measure(schema, m), 0, 0
  {
    hide Measure, WalkAll, Restate;
    var ds := DefaultsOf(schema, t.rel);
    if t.rel in schema && n > 0 {
      hide MayHoldStatements;
      if MayHoldStatements(ds) {
        EnterDecreases(schema, m, t.rel, Defaults);
        SameOrOutAll(schema, Enter(m, t.rel, Defaults).value, n - 1, ds);
      }
    }
  }

  /** Entering this list of this relation runs out at this depth. */
  ghost predicate NodeRunsOut(schema: Schema, node: Node, n: nat) {
    match node.list
    case Contexts => WalkFilters(schema, Fueled(n), Table(node.rel, "")) == Fail(OutOfFuel)
    case Defaults => WalkDefault(schema, Fueled(n), Table(node.rel, "")) == Fail(OutOfFuel)
  }

  ghost predicate NodesRunOut(schema: Schema, nodes: set<Node>, n: nat) {
    forall node, k: nat :: node in nodes && k <= n ==> NodeRunsOut(schema, node, k)
  }

  lemma {:induction false} RunsOut(schema: Schema, nodes: set<Node>, n: nat, e: Expr)
    requires WalkExpr(schema, Exact(nodes), e) == Fail(Cycle) && NodesRunOut(schema, nodes, n)
    ensures WalkExpr(schema, Fueled(n), e) == Fail(OutOfFuel)
    decreases n, Size(e), 2
  {
    match e
    case Op(_, es) => RunsOutAll(schema, nodes, n, es);
    case Select(s) => RunsOutStmt(schema, nodes, n, s);
  }

  lemma {:induction false} RunsOutAll(schema: Schema, nodes: set<Node>, n: nat, es: seq<Expr>)
    requires WalkAll(schema, Exact(nodes), es) == Fail(Cycle) && NodesRunOut(schema, nodes, n)
    ensures WalkAll(schema, Fueled(n), es) == Fail(OutOfFuel)
    decreases n, SizeAll(es), 0
  {
    hide NodesRunOut;
    if WalkExpr(schema, Exact(nodes), es[0]).Fail? {
      RunsOut(schema, nodes, n, es[0]);
    } else {
      SameOrOut(schema, Exact(nodes), n, es[0]);
      RunsOutAll(schema, nodes, n, es[1..]);
    }
  }

  lemma {:induction false} RunsOutStmt(schema: Schema, nodes: set<Node>, n: nat, s: Stmt)
    requires WalkStmt(schema, Exact(nodes), s) == Fail(Cycle) && NodesRunOut(schema, nodes, n)
    ensures WalkStmt(schema, Fueled(n), s) == Fail(OutOfFuel)
    decreases n, 2 + SizeAll(s.operands), 1
  {
    hide WalkAll, WalkCtx, WalkDefaults, CheckJoinPlacement, TablesOf, NodesRunOut;
    var m, ts := Exact(nodes), TablesOf(s);
    if WalkAll(schema, m, s.operands).Fail? {
      RunsOutAll(schema, nodes, n, s.operands);
    } else {
      SameOrOutAll(schema, m, n, s.operands);
      if WalkCtx(schema, m, ts).Fail? {
        RunsOutCtx(schema, nodes, n, ts);
      } else {
        SameOrOutCtx(schema, m, n, ts);
        RunsOutDefaults(schema, nodes, n, ts);
      }
    }
  }

  lemma {:induction false} RunsOutCtx(schema: Schema, nodes: set<Node>, n: nat, ts: seq<Table>)
    requires WalkCtx(schema, Exact(nodes), ts) == Fail(Cycle) && NodesRunOut(schema, nodes, n)
    ensures WalkCtx(schema, Fueled(n), ts) == Fail(OutOfFuel)
    decreases n, 0, |ts| + 1
  {
    hide WalkFilters, NodesRunOut;
    if WalkFilters(schema, Exact(nodes), ts[0]).Fail? {
      RunsOutFilters(schema, nodes, n, ts[0]);
    } else {
      SameOrOutFilters(schema, Exact(nodes), n, ts[0]);
      RunsOutCtx(schema, nodes, n, ts[1..]);
    }
  }

  lemma {:induction false} RunsOutFilters(schema: Schema, nodes: set<Node>, n: nat, t: Table)
    requires WalkFilters(schema, Exact(nodes), t) == Fail(Cycle) && NodesRunOut(schema, nodes, n)
    ensures WalkFilters(schema, Fueled(n), t) == Fail(OutOfFuel)
    decreases n, 0, 0
  {
    var node := Node(t.rel, Contexts);
    if node in nodes {
      assert NodeRunsOut(schema, node, n);
    } else if n > 0 {
      forall k: nat | k < n ensures NodeRunsOut(schema, node, k) {
        RunsOutFilters(schema, nodes, k, Table(t.rel, ""));
      }
      AnswersRefuse(FiltersOf(schema, t.rel));
      RunsOutAll(schema, nodes + {node}, n - 1, Answers(FiltersOf(schema, t.rel)).value);
    }
  }

  lemma {:induction false} RunsOutDefaults(schema: Schema, nodes: set<Node>, n: nat, ts: seq<Table>)
    requires WalkDefaults(schema, Exact(nodes), ts) == Fail(Cycle) && NodesRunOut(schema, nodes, n)
    ensures WalkDefaults(schema, Fueled(n), ts) == Fail(OutOfFuel)
    decreases n, 0, |ts| + 1
  {
    hide WalkDefault, NodesRunOut;
    if WalkDefault(schema, Exact(nodes), ts[0]).Fail? {
      RunsOutDefault(schema, nodes, n, ts[0]);
    } else {
      SameOrOutDefault(schema, Exact(nodes), n, ts[0]);
      RunsOutDefaults(schema, nodes, n, ts[1..]);
    }
  }

  lemma {:induction false} RunsOutDefault(schema: Schema, nodes: set<Node>, n: nat, t: Table)
    requires WalkDefault(schema, Exact(nodes), t) == Fail(Cycle) && NodesRunOut(schema, nodes, n)
    ensures WalkDefault(schema, Fueled(n), t) == Fail(OutOfFuel)
    decreases n, 0, 0
  {
    var node := Node(t.rel, Defaults);
    if node in nodes {
      assert NodeRunsOut(schema, node, n);
    } else if n > 0 {
      forall k: nat | k < n ensures NodeRunsOut(schema, node, k) {
        RunsOutDefault(schema, nodes, k, Table(t.rel, ""));
      }
      RunsOutAll(schema, nodes + {node}, n - 1, DefaultsOf(schema, t.rel));
    }
  }

  /** A walk with a chain never runs out. */
  lemma {:induction false} NeverOut(schema: Schema, m: Mode, e: Expr)
    requires !m.Fueled?
    ensures WalkExpr(schema, m, e) != Fail(OutOfFuel)
    decreases Measure(schema, m), Size(e), 2
  {
    hide Measure;
    match e
    case Op(_, es) => NeverOutAll(schema, m, es);
    case Select(s) =>
      hide WalkAll, WalkCtx, WalkDefaults, CheckJoinPlacement, TablesOf;
      NeverOutAll(schema, m, s.operands);
      NeverOutTables(schema, m, TablesOf(s));
    case _ =>
  }

  lemma {:induction false} NeverOutAll(schema: Schema, m: Mode, es: seq<Expr>)
    requires !m.Fueled?
    ensures WalkAll(schema, m, es) != Fail(OutOfFuel)
    decreases Measure(schema, m), SizeAll(es), 0
  {
    hide Measure;
    if es != [] {
      NeverOut(schema, m, es[0]);
      NeverOutAll(schema, m, es[1..]);
    }
  }

  lemma {:induction false} NeverOutTables(schema: Schema, m: Mode, ts: seq<Table>)
    requires !m.Fueled?
    ensures WalkCtx(schema, m, ts) != Fail(OutOfFuel) && WalkDefaults(schema, m, ts) != Fail(OutOfFuel)
    decreases Measure(schema, m), 0, |ts| + 1
  {
    hide Measure;
    if ts != [] {
      NeverOutTable(schema, m, ts[0]);
      hide WalkFilters, WalkDefault;
      NeverOutTables(schema, m, ts[1..]);
    }
  }

  lemma {:induction false} NeverOutTable(schema: Schema, m: Mode, t: Table)
    requires !m.Fueled?
    ensures WalkFilters(schema, m, t) != Fail(OutOfFuel) && WalkDefault(schema, m, t) != Fail(OutOfFuel)
    decreases Measure(schema, m), 0, 0
  {
    hide Measure, WalkAll, MayHoldStatements;
    if t.rel in schema {
      AnswersRefuse(schema[t.rel].filters);
      if Enter(m, t.rel, Contexts).Ok? && Answers(schema[t.rel].filters).Ok? {
        EnterDecreases(schema, m, t.rel, Contexts);
        NeverOutAll(schema, Enter(m, t.rel, Contexts).value, Answers(schema[t.rel].filters).value);
      }
      if Enter(m, t.rel, Defaults).Ok? {
        EnterDecreases(schema, m, t.rel, Defaults);
        NeverOutAll(schema, Enter(m, t.rel, Defaults).value, schema[t.rel].defaults);
      }
    }
    NothingDeclared(schema, t);
  }

  lemma NothingDeclared(schema: Schema, t: Table)
    ensures t.rel !in schema ==> FiltersOf(schema, t.rel) == [] && !MayHoldStatements(DefaultsOf(schema, t.rel))
  {
  }

  lemma {:induction false} AnswersRefuse(fs: seq<Answer>)
    ensures Answers(fs).Err? ==> Answers(fs).error == Refused
  {
    if fs != [] {
      AnswersRefuse(fs[1..]);
    }
  }

  /** The expansion without a guard never ends: it runs out at every depth. */
  ghost predicate Endless(schema: Schema, e: Expr) {
    forall n: nat :: WalkExpr(schema, Fueled(n), e) == Fail(OutOfFuel)
  }

  /** It never ends exactly when the walk that tells a relation's two lists apart meets a cycle. */
  lemma EndlessIff(schema: Schema, e: Expr)
    ensures Endless(schema, e) <==> ResolveExactly(schema, e) == Fail(Cycle)
  {
    if ResolveExactly(schema, e) == Fail(Cycle) {
      forall n: nat ensures WalkExpr(schema, Fueled(n), e) == Fail(OutOfFuel) {
        RunsOut(schema, {}, n, e);
      }
    } else {
      var n := Measure(schema, Exact({}));
      AgreeExpr(schema, Exact({}), n, e);
      NeverOut(schema, Exact({}), e);
      assert WalkExpr(schema, Fueled(n), e) != Fail(OutOfFuel);
    }
  }

  /**
    A cycle is reported for every expansion that never ends. A reported cycle is one that never ends
    exactly when it re-enters the same list of the relation, and not only the relation.
   */
  lemma CycleIffEndless(schema: Schema, e: Expr)
    ensures Endless(schema, e) ==> Resolve(schema, e) == Fail(Cycle)
    ensures Resolve(schema, e) == Fail(Cycle) ==> (Endless(schema, e) <==> ResolveExactly(schema, e) == Fail(Cycle))
  {
    EndlessIff(schema, e);
    if Resolve(schema, e) != Fail(Cycle) {
      var n := Measure(schema, Guarded({}));
      AgreeExpr(schema, Guarded({}), n, e);
      NeverOut(schema, Guarded({}), e);
      assert WalkExpr(schema, Fueled(n), e) != Fail(OutOfFuel);
    }
  }

  /**
    A cycle can be reported ahead of a refusal. The default filter of "events" reads
    "events" joined with "secrets", whose own filter refuses: the guard stops at
    "events" while the unguarded expansion goes on to be refused.
   */
  function BlockedSchema(): Schema {
    var joins := [Joined(JoinChain.Inner, Table("secrets", ""))];
    var inner := Stmt([], Some(Table("events", "")), joins, false, false, false, [], [], false);
    map["events" := Scope([Adds(Opaque("tenantId = ?"))], [Select(inner)]), "secrets" := Scope([Refuses], [])]
  }

  function ReadEvents(): Expr {
    Select(Stmt([], Some(Table("events", "")), [], false, false, false, [], [], false))
  }

  /** Statements and schemas as a caller writes them, default filters that select included. */
  lemma WrittenIsRaw()
    ensures Raw(ReadEvents()) && RawSchema(BlockedSchema())
  {
    var defaults := BlockedSchema()["events"].defaults;
    assert defaults[1..] == [] && Raw(defaults[0]);
  }

  lemma BlockedFacts()
    ensures var schema := BlockedSchema(); var inner := schema["events"].defaults[0].stmt;
            && Answers(FiltersOf(schema, "events")) == Ok([Opaque("tenantId = ?")])
            && TablesOf(inner) == [Table("events", ""), Table("secrets", "")]
            && TablesOf(ReadEvents().stmt) == [Table("events", "")]
            && CheckJoinPlacement(schema, inner.from, inner.joins) == None
            && MayHoldStatements(DefaultsOf(schema, "events"))
            && forall m: Mode :: WalkAll(schema, m, [Opaque("tenantId = ?")]) == Done([Opaque("tenantId = ?")], false)
  {
    var schema, p := BlockedSchema(), Opaque("tenantId = ?");
    var inner := schema["events"].defaults[0].stmt;
    assert [Adds(p)][1..] == [] && [p] + [] == [p];
    assert JoinedTables(inner.joins) == [Table("secrets", "")];
    assert forall m: Mode :: WalkAll(schema, m, []) == Done([], false);
  }

  lemma CycleReported()
    ensures Resolve(BlockedSchema(), ReadEvents()) == Fail(Cycle)
  {
    BlockedFacts();
    var schema, events := BlockedSchema(), Table("events", "");
    var inner := schema["events"].defaults[0].stmt;
    var g := Guarded({"events"});
    assert WalkCtx(schema, g, TablesOf(inner)) == Fail(Cycle);
    assert WalkStmt(schema, g, inner) == Fail(Cycle);
    assert WalkAll(schema, g, [Select(inner)]) == Fail(Cycle);
    assert {} + {"events"} == {"events"};
    assert WalkDefault(schema, Guarded({}), events) == Fail(Cycle);
  }

  lemma RefusedWithoutGuard(n: nat)
    requires n >= 2
    ensures WalkExpr(BlockedSchema(), Fueled(n), ReadEvents()) == Fail(Refused)
  {
    BlockedFacts();
    var schema, events, secrets := BlockedSchema(), Table("events", ""), Table("secrets", "");
    var inner := schema["events"].defaults[0].stmt;
    var f := Fueled(n - 1);
    assert WalkFilters(schema, f, secrets) == Fail(Refused);
    assert [events, secrets][1..] == [secrets];
    assert WalkCtx(schema, f, [secrets]) == Fail(Refused);
    assert WalkFilters(schema, f, events).Done?;
    assert WalkCtx(schema, f, TablesOf(inner)) == Fail(Refused);
    assert WalkStmt(schema, f, inner) == Fail(Refused);
    assert WalkExpr(schema, f, Select(inner)) == Fail(Refused);
    assert WalkAll(schema, f, [Select(inner)]) == Fail(Refused);
    assert WalkDefault(schema, Fueled(n), events) == Fail(Refused);
    assert WalkFilters(schema, Fueled(n), events).Done?;
    assert WalkCtx(schema, Fueled(n), []).Done?;
    assert WalkCtx(schema, Fueled(n), [events]).Done?;
    assert WalkDefaults(schema, Fueled(n), [events]) == Fail(Refused);
    assert WalkAll(schema, Fueled(n), []) == Done([], false);
    assert CheckJoinPlacement(schema, Some(events), []) == None;
    assert WalkStmt(schema, Fueled(n), ReadEvents().stmt) == Fail(Refused);
  }

  // ------------------------------------------------ every statement is filtered

  lemma FreshShrinks(schema: Schema, chain: set<Rel>, rel: Rel)
    ensures |schema.Keys - (chain + {rel})| <= |schema.Keys - chain|
    ensures rel in schema && rel !in chain ==> |schema.Keys - (chain + {rel})| < |schema.Keys - chain|
  {
    if rel in schema && rel !in chain {
      assert schema.Keys - (chain + {rel}) == (schema.Keys - chain) - {rel};
    } else {
      assert schema.Keys - (chain + {rel}) == schema.Keys - chain;
    }
  }

  /** Predicates written against this instance of the table. */
  ghost predicate Restated(t: Table, es: seq<Expr>) {
    if t.alias == "" then forall i :: 0 <= i < |es| ==> !es[i].Renamed?
    else forall i :: 0 <= i < |es| ==> es[i].Renamed? && es[i].alias == t.alias
  }

  /** How many of the first i filters add a predicate. */
  ghost function Adding(fs: seq<Answer>, i: nat): nat
    requires i <= |fs|
  {
    if i == 0 then 0 else (if fs[0].Adds? then 1 else 0) + Adding(fs[1..], i - 1)
  }

  /** No filter refuses, and there is one predicate for every filter that adds one, in the filters' order. */
  ghost predicate AddedBy(fs: seq<Answer>, es: seq<Expr>) {
    && Refuses !in fs && |es| == Adding(fs, |fs|)
    && forall i :: 0 <= i < |fs| && fs[i].Adds? ==> Adding(fs, i) < |es| && es[Adding(fs, i)] == fs[i].pred
  }

  /** Every filter is asked: one that refuses fails the table, and each that adds a predicate is in the list. */
  lemma {:induction false} EveryFilterAnswers(fs: seq<Answer>)
    ensures Answers(fs) == Err(Refused) <==> Refuses in fs
    ensures Refuses !in fs ==> Answers(fs).Ok? && AddedBy(fs, Answers(fs).value)
  {
    if fs != [] {
      EveryFilterAnswers(fs[1..]);
      assert fs == [fs[0]] + fs[1..];
      if Refuses !in fs {
        var es, rest := Answers(fs).value, Answers(fs[1..]).value;
        forall i | 0 <= i < |fs| && fs[i].Adds?
          ensures Adding(fs, i) < |es| && es[Adding(fs, i)] == fs[i].pred
        {
          if i > 0 {
            assert fs[i] == fs[1..][i - 1];
            assert Adding(fs[1..], i - 1) < |rest| && rest[Adding(fs[1..], i - 1)] == fs[i].pred;
          }
        }
      }
    }
  }

  /** Nothing in them to resolve: columns, parameters, text. */
  ghost predicate Closed(es: seq<Expr>) {
    forall i :: 0 <= i < |es| ==> es[i].Nil? || es[i].Opaque? || es[i].Renamed?
  }

  /**
    Every statement reachable in e, through operands and through the predicates of its own
    filters, carries every filter of every table it names, and no foreign statement refused.
   */
  ghost predicate Scoped(schema: Schema, chain: set<Rel>, e: Expr)
    decreases |schema.Keys - chain|, e, 0
  {
    match e
    case Op(_, es) => AllScoped(schema, chain, es)
    case Renamed(_, inner) => Scoped(schema, chain, inner)
    case Foreign(refuses) => !refuses
    case Select(s) =>
      && AllScoped(schema, chain, s.operands)
      && ((s.unscoped && !s.keepCtx) ||
          ((s.from.Some? ==> TableScoped(schema, chain, s, 0, s.from.value)) &&
           forall j :: 0 <= j < |s.joins| ==>
             TableScoped(schema, chain, s, if s.from.Some? then j + 1 else j, s.joins[j].table)))
    case _ => true
  }

  /** The k-th table of the statement: its context filters are carried, and so are its default filters. */
  ghost predicate TableScoped(schema: Schema, chain: set<Rel>, s: Stmt, k: nat, t: Table)
    decreases |schema.Keys - chain|, s, 3
  {
    && (if k < |s.ctx| && s.ctx[k].Added?
        then (var preds := s.ctx[k].preds;
              && (if t.rel in schema then AddedBy(schema[t.rel].filters, EraseAll(preds)) else preds == [])
              && Carried(schema, chain, t, preds))
        else t.rel in schema ==> AddedBy(schema[t.rel].filters, []))
    && (if k < |s.defaults| && s.defaults[k].Added?
        then t.rel in schema && EraseAll(s.defaults[k].preds) == schema[t.rel].defaults
             && Carried(schema, chain, t, s.defaults[k].preds)
        else t.rel in schema ==>
               || Closed(schema[t.rel].defaults)
               || (FreshShrinks(schema, chain, t.rel);
                   t.rel !in chain && AllScoped(schema, chain + {t.rel}, schema[t.rel].defaults)))
  }

  ghost predicate AllScoped(schema: Schema, chain: set<Rel>, es: seq<Expr>)
    decreases |schema.Keys - chain|, es, 1
  {
    es == [] || (Scoped(schema, chain, es[0]) && AllScoped(schema, chain, es[1..]))
  }

  /** Restated against this instance, and every statement inside them scoped in turn. */
  ghost predicate Carried(schema: Schema, chain: set<Rel>, t: Table, preds: seq<Expr>)
    decreases |schema.Keys - chain|, preds, 2
  {
    FreshShrinks(schema, chain, t.rel);
    Restated(t, preds) && AllScoped(schema, chain + {t.rel}, preds)
  }

  ghost predicate CtxCarried(schema: Schema, chain: set<Rel>, t: Table, preds: seq<Expr>) {
    && (if t.rel in schema then AddedBy(schema[t.rel].filters, EraseAll(preds)) else preds == [])
    && Carried(schema, chain, t, preds)
  }

  ghost predicate DefaultsCarried(schema: Schema, chain: set<Rel>, t: Table, d: Added) {
    match d
    case Added(es) => t.rel in schema && EraseAll(es) == schema[t.rel].defaults && Carried(schema, chain, t, es)
    case Unresolved =>
      t.rel in schema ==>
        || Closed(schema[t.rel].defaults)
        || (t.rel !in chain && AllScoped(schema, chain + {t.rel}, schema[t.rel].defaults))
  }

  lemma {:induction false} RestateScoped(schema: Schema, chain: set<Rel>, t: Table, es: seq<Expr>)
    requires AllScoped(schema, chain, es) && forall i :: 0 <= i < |es| ==> !es[i].Renamed?
    ensures AllScoped(schema, chain, Restate(t, es)) && EraseAll(Restate(t, es)) == EraseAll(es)
    ensures Restated(t, Restate(t, es))
  {
    if es != [] && t.alias != "" {
      RestateScoped(schema, chain, t, es[1..]);
      assert Restate(t, es)[1..] == Restate(t, es[1..]);
    }
  }

  lemma {:induction false} RawAnswer(fs: seq<Answer>)
    requires RawAnswers(fs) && Answers(fs).Ok?
    ensures AllRaw(Answers(fs).value)
  {
    if fs != [] {
      RawAnswer(fs[1..]);
      if fs[0].Adds? {
        var rest := Answers(fs[1..]).value;
        assert ([fs[0].pred] + rest)[1..] == rest;
      }
    }
  }

  lemma {:induction false} ScopedExpr(schema: Schema, chain: set<Rel>, e: Expr)
    requires RawSchema(schema) && Raw(e) && WalkExpr(schema, Guarded(chain), e).Done?
    ensures Scoped(schema, chain, WalkExpr(schema, Guarded(chain), e).value)
    decreases |schema.Keys - chain|, Size(e), 2
  {
    match e
    case Op(_, es) =>
      ScopedAll(schema, chain, es);
      OnlyAddsAll(schema, Guarded(chain), es);
    case Select(s) => ScopedStmt(schema, chain, s);
    case _ =>
  }

  lemma {:induction false} ScopedAll(schema: Schema, chain: set<Rel>, es: seq<Expr>)
    requires RawSchema(schema) && AllRaw(es) && WalkAll(schema, Guarded(chain), es).Done?
    ensures AllScoped(schema, chain, WalkAll(schema, Guarded(chain), es).value)
    decreases |schema.Keys - chain|, SizeAll(es), 0
  {
    if es != [] {
      ScopedExpr(schema, chain, es[0]);
      ScopedAll(schema, chain, es[1..]);
      var r, rs := WalkExpr(schema, Guarded(chain), es[0]).value, WalkAll(schema, Guarded(chain), es[1..]).value;
      assert ([r] + rs)[1..] == rs;
    }
  }

  /** The lists a table was given, or none because nothing was added, are what its filters ask for. */
  lemma TableIsScoped(schema: Schema, chain: set<Rel>, r: Stmt, k: nat, t: Table, ctx: seq<Expr>, d: Added)
    requires CtxCarried(schema, chain, t, ctx) && DefaultsCarried(schema, chain, t, d)
    requires if k < |r.ctx| then r.ctx[k] == Added(ctx) else ctx == []
    requires if k < |r.defaults| then r.defaults[k] == d else d == Unresolved
    ensures TableScoped(schema, chain, r, k, t)
  {
    hide AddedBy, Carried, AllScoped, Closed;
    assert EraseAll([]) == [];
    FreshShrinks(schema, chain, t.rel);
  }

  lemma {:induction false} ScopedStmt(schema: Schema, chain: set<Rel>, s: Stmt)
    requires RawSchema(schema) && Raw(Select(s)) && WalkStmt(schema, Guarded(chain), s).Done?
    ensures Scoped(schema, chain, WalkStmt(schema, Guarded(chain), s).value)
    decreases |schema.Keys - chain|, 2 + SizeAll(s.operands), 1
  {
    hide WalkAll, WalkCtx, WalkDefaults, CheckJoinPlacement, MayHoldStatements, TableScoped, CtxCarried,
         DefaultsCarried, TablesOf;
    var m, ts := Guarded(chain), TablesOf(s);
    ScopedAll(schema, chain, s.operands);
    OnlyAddsAll(schema, m, s.operands);
    if !DropsContextFilters(s) {
      ScopedCtx(schema, chain, ts);
      ScopedDefaults(schema, chain, ts);
      TablesAreNamed(s);
      var r := WalkStmt(schema, m, s).value.stmt;
      var ctx, ds := WalkCtx(schema, m, ts).value, WalkDefaults(schema, m, ts).value;
      forall k | 0 <= k < |ts| ensures TableScoped(schema, chain, r, k, ts[k]) {
        TableIsScoped(schema, chain, r, k, ts[k], ctx[k].preds, ds[k]);
      }
    }
  }

  /** One list per table, each carried; and no list at all differs from empty lists only in spelling. */
  lemma {:induction false} ScopedCtx(schema: Schema, chain: set<Rel>, ts: seq<Table>)
    requires RawSchema(schema) && WalkCtx(schema, Guarded(chain), ts).Done?
    ensures var w := WalkCtx(schema, Guarded(chain), ts);
            forall k :: 0 <= k < |ts| ==>
              && w.value[k].Added? && CtxCarried(schema, chain, ts[k], w.value[k].preds)
              && (!w.changed ==> w.value[k].preds == [])
    decreases |schema.Keys - chain|, 0, |ts| + 1
  {
    if ts != [] {
      ScopedFilters(schema, chain, ts[0]);
      ScopedCtx(schema, chain, ts[1..]);
      hide WalkFilters, CtxCarried;
      var rest := WalkCtx(schema, Guarded(chain), ts[1..]);
      forall k | 0 <= k < |ts|
        ensures var w := WalkCtx(schema, Guarded(chain), ts);
                && w.value[k].Added? && CtxCarried(schema, chain, ts[k], w.value[k].preds)
                && (!w.changed ==> w.value[k].preds == [])
      {
        if k > 0 {
          assert ts[k] == ts[1..][k - 1];
        }
      }
    }
  }

  lemma NeverRenamed(schema: Schema, m: Mode, e: Expr)
    requires Raw(e) && WalkExpr(schema, m, e).Done?
    ensures !WalkExpr(schema, m, e).value.Renamed?
  {
    hide WalkAll, WalkCtx, WalkDefaults;
  }

  /** The walk renames nothing itself. */
  lemma {:induction false} NotRenamed(schema: Schema, m: Mode, es: seq<Expr>)
    requires AllRaw(es) && WalkAll(schema, m, es).Done?
    ensures forall i :: 0 <= i < |es| ==> !WalkAll(schema, m, es).value[i].Renamed?
  {
    if es != [] {
      hide WalkExpr, Raw;
      NeverRenamed(schema, m, es[0]);
      NotRenamed(schema, m, es[1..]);
    }
  }

  lemma {:induction false} ScopedFilters(schema: Schema, chain: set<Rel>, t: Table)
    requires RawSchema(schema) && WalkFilters(schema, Guarded(chain), t).Done?
    ensures CtxCarried(schema, chain, t, WalkFilters(schema, Guarded(chain), t).value)
    decreases |schema.Keys - chain|, 0, 0
  {
    var fs := FiltersOf(schema, t.rel);
    EveryFilterAnswers(fs);
    if fs != [] {
      var es := Answers(fs).value;
      RawAnswer(fs);
      FreshShrinks(schema, chain, t.rel);
      ScopedAll(schema, chain + {t.rel}, es);
      OnlyAddsAll(schema, Guarded(chain + {t.rel}), es);
      NotRenamed(schema, Guarded(chain + {t.rel}), es);
      RestateScoped(schema, chain + {t.rel}, t, WalkAll(schema, Guarded(chain + {t.rel}), es).value);
    }
  }

  lemma {:induction false} ScopedDefaults(schema: Schema, chain: set<Rel>, ts: seq<Table>)
    requires RawSchema(schema) && WalkDefaults(schema, Guarded(chain), ts).Done?
    ensures var w := WalkDefaults(schema, Guarded(chain), ts);
            forall k :: 0 <= k < |ts| ==>
              DefaultsCarried(schema, chain, ts[k], w.value[k]) && (!w.changed ==> w.value[k] == Unresolved)
    decreases |schema.Keys - chain|, 0, |ts| + 1
  {
    if ts != [] {
      ScopedDefault(schema, chain, ts[0]);
      ScopedDefaults(schema, chain, ts[1..]);
      hide WalkDefault, DefaultsCarried;
      forall k | 0 <= k < |ts|
        ensures var w := WalkDefaults(schema, Guarded(chain), ts);
                DefaultsCarried(schema, chain, ts[k], w.value[k]) && (!w.changed ==> w.value[k] == Unresolved)
      {
        if k > 0 {
          assert ts[k] == ts[1..][k - 1];
        }
      }
    }
  }

  lemma {:induction false} ScopedDefault(schema: Schema, chain: set<Rel>, t: Table)
    requires RawSchema(schema) && WalkDefault(schema, Guarded(chain), t).Done?
    ensures DefaultsCarried(schema, chain, t, WalkDefault(schema, Guarded(chain), t).value)
    decreases |schema.Keys - chain|, 0, 0
  {
    var ds := DefaultsOf(schema, t.rel);
    if MayHoldStatements(ds) {
      FreshShrinks(schema, chain, t.rel);
      ScopedAll(schema, chain + {t.rel}, ds);
      OnlyAddsAll(schema, Guarded(chain + {t.rel}), ds);
      NotRenamed(schema, Guarded(chain + {t.rel}), ds);
      RestateScoped(schema, chain + {t.rel}, t, WalkAll(schema, Guarded(chain + {t.rel}), ds).value);
    }
  }

  /** A resolution that succeeds is the caller's statement with every reachable statement filtered. */
  lemma ResolvedIsScoped(schema: Schema, e: Expr)
    requires RawSchema(schema) && Raw(e) && Resolve(schema, e).Done?
    ensures Scoped(schema, {}, Resolve(schema, e).value) && Erase(Resolve(schema, e).value) == e
  {
    ScopedExpr(schema, {}, e);
    OnlyAdds(schema, Guarded({}), e);
  }

  // ------------------------------------------------------------- resolving twice

  /** A resolved expression resolves to itself, and is reported unchanged. */
  lemma {:induction false} ResolveTwice(schema: Schema, m: Mode, e: Expr)
    requires WalkExpr(schema, m, e).Done?
    ensures var r := WalkExpr(schema, m, e).value; WalkExpr(schema, m, r) == Done(r, false)
    decreases e, 0
  {
    match e
    case Op(_, es) => ResolveTwiceAll(schema, m, es);
    case Select(s) =>
    case _ =>
  }

  lemma {:induction false} ResolveTwiceAll(schema: Schema, m: Mode, es: seq<Expr>)
    requires WalkAll(schema, m, es).Done?
    ensures var rs := WalkAll(schema, m, es).value; WalkAll(schema, m, rs) == Done(rs, false)
    decreases es, 1
  {
    if es != [] {
      ResolveTwice(schema, m, es[0]);
      ResolveTwiceAll(schema, m, es[1..]);
      var r, rs := WalkExpr(schema, m, es[0]).value, WalkAll(schema, m, es[1..]).value;
      assert ([r] + rs)[1..] == rs;
    }
  }
}
