/**
  Resolving a statement's request-time predicates: the walk that reaches every
  statement inside an expression, adds the context filters of the tables it names,
  and re-enters itself through the predicates those filters answer with.
 */
module Resolution {
  import opened Wrappers
  import JoinChain

  type Rel = string

  /** One instance of a relation; aliases of a relation share its filters. */
  datatype Table = Table(rel: Rel, alias: string)

  datatype Joined = Joined(kind: JoinChain.JoinKind, table: Table)

  datatype Expr =
    | Nil
      /** A column, a parameter, raw text or a caller's closure: nothing to walk. */
    | Opaque(text: string)
      /** An operator, call or connective over operands. */
    | Op(parts: seq<string>, operands: seq<Expr>)
      /** A caller's own statement type, asked for its ctx form and rendered by itself. */
    | Foreign(refuses: bool)
    | Select(stmt: Stmt)
      /** A predicate rendered with its relation renamed to an instance's alias; closed to the walk. */
    | Renamed(alias: string, inner: Expr)

  /**
    `operands` holds every expression the renderer reads, in the order the walk
    visits them: the clause lists, SAMPLE, the CTE bodies, the join conditions.
    `ctx` and `defaults` hold one entry per table once the statement is resolved.
   */
  datatype Stmt = Stmt(operands: seq<Expr>, from: Option<Table>, joins: seq<Joined>, unscoped: bool, keepCtx: bool,
                       deferred: bool, ctx: seq<Added>, defaults: seq<Added>, resolved: bool)

  /** A table's predicates built for one execution; `Unresolved` leaves the declared ones in place. */
  datatype Added = Unresolved | Added(preds: seq<Expr>)

  /** What a context filter answers for the request at hand. */
  datatype Answer = Nothing | Adds(pred: Expr) | Refuses

  datatype Scope = Scope(filters: seq<Answer>, defaults: seq<Expr>)

  /** The relations that carry filters, as one request sees them. */
  type Schema = map<Rel, Scope>

  datatype Error = Deferred | Refused | JoinRefused(join: JoinChain.JoinError) | Cycle | OutOfFuel

  /** The expression to render, and whether it differs from the one walked. */
  datatype Walked<T> = Done(value: T, changed: bool) | Fail(error: Error)

  /** Which of a relation's lists a walk enters: its context filters or its default filters. */
  datatype List = Contexts | Defaults

  datatype Node = Node(rel: Rel, list: List)

  /**
    How a walk enters a relation's filters. `Guarded` is the code: the chain of relations being
    resolved stops re-entry. `Exact` keeps the two lists of a relation apart. `Fueled` is the
    expansion without a chain, cut off after a number of nested entries.
   */
  datatype Mode = Guarded(chain: set<Rel>) | Exact(nodes: set<Node>) | Fueled(fuel: nat)

  function Enter(m: Mode, rel: Rel, list: List): Result<Mode, Error> {
    match m
    case Guarded(chain) => if rel in chain then Err(Cycle) else Ok(Guarded(chain + {rel}))
    case Exact(nodes) => if Node(rel, list) in nodes then Err(Cycle) else Ok(Exact(nodes + {Node(rel, list)}))
    case Fueled(n) => if n == 0 then Err(OutOfFuel) else Ok(Fueled(n - 1))
  }

  function NodesOf(schema: Schema): set<Node> {
    (set rel | rel in schema :: Node(rel, Contexts)) + (set rel | rel in schema :: Node(rel, Defaults))
  }

  function Measure(schema: Schema, m: Mode): nat {
    match m
    case Guarded(chain) => |schema.Keys - chain|
    case Exact(nodes) => |NodesOf(schema) - nodes|
    case Fueled(n) => n
  }

  lemma EnterDecreases(schema: Schema, m: Mode, rel: Rel, list: List)
    requires rel in schema && Enter(m, rel, list).Ok?
    ensures Measure(schema, Enter(m, rel, list).value) < Measure(schema, m)
  {
    if m.Guarded? {
      assert schema.Keys - (m.chain + {rel}) == (schema.Keys - m.chain) - {rel};
    } else if m.Exact? {
      var node := Node(rel, list);
      assert node in NodesOf(schema) - m.nodes;
      assert NodesOf(schema) - (m.nodes + {node}) == (NodesOf(schema) - m.nodes) - {node};
    }
  }

  // ---------------------------------------------------------------- the filters

  function FiltersOf(schema: Schema, rel: Rel): seq<Answer> {
    if rel in schema then schema[rel].filters else []
  }

  function DefaultsOf(schema: Schema, rel: Rel): seq<Expr> {
    if rel in schema then schema[rel].defaults else []
  }

  /** The predicates the filters add, or a refusal when any of them refuses. */
  function Answers(fs: seq<Answer>): Result<seq<Expr>, Error> {
    if fs == [] then Ok([])
    else
      match fs[0]
      case Refuses => Err(Refused)
      case Nothing => Answers(fs[1..])
      case Adds(e) =>
        match Answers(fs[1..])
        case Err(x) => Err(x)
        case Ok(es) => Ok([e] + es)
  }

  predicate MayHoldStatements(es: seq<Expr>) {
    exists i :: 0 <= i < |es| && (es[i].Op? || es[i].Select? || es[i].Foreign?)
  }

  /** Restates a table's predicates against the instance the statement names. */
  function Restate(t: Table, es: seq<Expr>): (rs: seq<Expr>)
    ensures |rs| == |es|
  {
    if t.alias == "" then es else seq(|es|, i requires 0 <= i < |es| => Renamed(t.alias, es[i]))
  }

  /** FROM first, then the joins in order. */
  function TablesOf(s: Stmt): seq<Table> {
    (if s.from.Some? then [s.from.value] else []) + JoinedTables(s.joins)
  }

  lemma TablesAreNamed(s: Stmt)
    ensures var (ts, first) := (TablesOf(s), if s.from.Some? then 1 else 0);
      && |ts| == |s.joins| + first && (s.from.Some? ==> ts[0] == s.from.value)
      && forall j :: 0 <= j < |s.joins| ==> ts[j + first] == s.joins[j].table
  {
  }

  /** The k-th table is FROM's or a join's. */
  lemma TableIsNamed(s: Stmt, k: nat)
    requires k < |TablesOf(s)|
    ensures var first := if s.from.Some? then 1 else 0;
      if k < first then s.from.Some? && TablesOf(s)[k] == s.from.value
      else k - first < |s.joins| && TablesOf(s)[k] == s.joins[k - first].table
  {
  }

  lemma JoinIsNamed(s: Stmt, j: nat)
    requires j < |s.joins|
    ensures var k := if s.from.Some? then j + 1 else j; k < |TablesOf(s)| && TablesOf(s)[k] == s.joins[j].table
  {
  }

  function JoinedTables(js: seq<Joined>): (ts: seq<Table>)
    ensures |ts| == |js| && forall j :: 0 <= j < |js| ==> ts[j] == js[j].table
  {
    if js == [] then [] else [js[0].table] + JoinedTables(js[1..])
  }

  predicate DropsContextFilters(s: Stmt) {
    s.unscoped && !s.keepCtx
  }

  predicate HasContextFilters(schema: Schema, t: Table) {
    FiltersOf(schema, t.rel) != []
  }

  /** The refusal of FULL and ASOF joins over scoped tables, in join order. */
  function CheckJoinPlacement(schema: Schema, from: Option<Table>, js: seq<Joined>): (err: Option<Error>)
    ensures err.Some? ==> err.value.JoinRefused?
  {
    if js == [] then None
    else
      var fromScoped := from.Some? && HasContextFilters(schema, from.value);
      match JoinChain.RefusedJoin(js[0].kind, HasContextFilters(schema, js[0].table), fromScoped)
      case Some(e) => Some(JoinRefused(e))
      case None => CheckJoinPlacement(schema, from, js[1..])
  }

  // ------------------------------------------------------------------- the walk

  function Size(e: Expr): nat
    decreases e, 0
  {
    match e
    case Op(_, es) => 1 + SizeAll(es)
    case Select(s) => 2 + SizeAll(s.operands)
    case _ => 1
  }

  function SizeAll(es: seq<Expr>): nat
    decreases es, 1
  {
    if es == [] then 0 else 1 + Size(es[0]) + SizeAll(es[1..])
  }

  function WalkExpr(schema: Schema, m: Mode, e: Expr): Walked<Expr>
    decreases Measure(schema, m), Size(e), 2
  {
    match e
    case Nil | Opaque(_) | Renamed(_, _) => Done(e, false)
    case Foreign(refuses) => if refuses then Fail(Refused) else Done(e, false)
    case Op(parts, es) =>
      (match WalkAll(schema, m, es)
       case Fail(x) => Fail(x)
       case Done(rs, changed) => Done(if changed then Op(parts, rs) else e, changed))
    case Select(s) => WalkStmt(schema, m, s)
  }

  function WalkAll(schema: Schema, m: Mode, es: seq<Expr>): (w: Walked<seq<Expr>>)
    ensures w.Done? ==> |w.value| == |es|
    decreases Measure(schema, m), SizeAll(es), 0
  {
    if es == [] then Done([], false)
    else
      match WalkExpr(schema, m, es[0])
      case Fail(x) => Fail(x)
      case Done(r, c0) =>
        match WalkAll(schema, m, es[1..])
        case Fail(x) => Fail(x)
        case Done(rs, c1) => Done([r] + rs, c0 || c1)
  }

  /** A statement for one execution: itself when nothing was added, a marked copy otherwise. */
  function WalkStmt(schema: Schema, m: Mode, s: Stmt): Walked<Expr>
    decreases Measure(schema, m), 2 + SizeAll(s.operands), 1
  {
    if s.deferred then Fail(Deferred)
    else if s.resolved then Done(Select(s), false)
    else
      match WalkAll(schema, m, s.operands)
      case Fail(x) => Fail(x)
      case Done(os, c0) =>
        if DropsContextFilters(s) then
          Done(if c0 then Select(s.(operands := os, resolved := true)) else Select(s), c0)
        else if CheckJoinPlacement(schema, s.from, s.joins).Some? then
          Fail(CheckJoinPlacement(schema, s.from, s.joins).value)
        else
          match WalkCtx(schema, m, TablesOf(s))
          case Fail(x) => Fail(x)
          case Done(ctx, c1) =>
            match WalkDefaults(schema, m, TablesOf(s))
            case Fail(x) => Fail(x)
            case Done(ds, c2) =>
              if c0 || c1 || c2
              then Done(Select(s.(operands := os, ctx := ctx, defaults := ds, resolved := true)), true)
              else Done(Select(s), false)
  }

  /** The context filters of each table, built, walked and restated. */
  function WalkCtx(schema: Schema, m: Mode, ts: seq<Table>): (w: Walked<seq<Added>>)
    ensures w.Done? ==> |w.value| == |ts|
    decreases Measure(schema, m), 0, |ts| + 1
  {
    if ts == [] then Done([], false)
    else
      match WalkFilters(schema, m, ts[0])
      case Fail(x) => Fail(x)
      case Done(es, _) =>
        match WalkCtx(schema, m, ts[1..])
        case Fail(x) => Fail(x)
        case Done(rest, c) => Done([Added(es)] + rest, es != [] || c)
  }

  function WalkFilters(schema: Schema, m: Mode, t: Table): Walked<seq<Expr>>
    decreases Measure(schema, m), 0, 0
  {
    if FiltersOf(schema, t.rel) == [] then Done([], false)
    else
      match Enter(m, t.rel, Contexts)
      case Err(x) => Fail(x)
      case Ok(inner) =>
        EnterDecreases(schema, m, t.rel, Contexts);
        match Answers(FiltersOf(schema, t.rel))
        case Err(x) => Fail(x)
        case Ok(es) =>
          match WalkAll(schema, inner, es)
          case Fail(x) => Fail(x)
          case Done(rs, c) => Done(Restate(t, rs), c)
  }

  /** The default filters of each table, where a statement inside one had to be resolved. */
  function WalkDefaults(schema: Schema, m: Mode, ts: seq<Table>): (w: Walked<seq<Added>>)
    ensures w.Done? ==> |w.value| == |ts|
    decreases Measure(schema, m), 0, |ts| + 1
  {
    if ts == [] then Done([], false)
    else
      match WalkDefault(schema, m, ts[0])
      case Fail(x) => Fail(x)
      case Done(es, _) =>
        match WalkDefaults(schema, m, ts[1..])
        case Fail(x) => Fail(x)
        case Done(rest, c) => Done([es] + rest, es.Added? || c)
  }

  function WalkDefault(schema: Schema, m: Mode, t: Table): Walked<Added>
    decreases Measure(schema, m), 0, 0
  {
    var ds := DefaultsOf(schema, t.rel);
    if !MayHoldStatements(ds) then Done(Unresolved, false)
    else
      match Enter(m, t.rel, Defaults)
      case Err(x) => Fail(x)
      case Ok(inner) =>
        EnterDecreases(schema, m, t.rel, Defaults);
        match WalkAll(schema, inner, ds)
        case Fail(x) => Fail(x)
        case Done(rs, c) => Done(if c then Added(Restate(t, rs)) else Unresolved, c)
  }

  /** The resolver as the executors call it. */
  function Resolve(schema: Schema, e: Expr): Walked<Expr> {
    WalkExpr(schema, Guarded({}), e)
  }

  /** The same with the two lists of a relation told apart. */
  function ResolveExactly(schema: Schema, e: Expr): Walked<Expr> {
    WalkExpr(schema, Exact({}), e)
  }
}
