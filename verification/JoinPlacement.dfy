/**
  Where a SELECT writes the automatic predicates of the tables it names.

  `PlaceFilters` distributes the guards of every table over the ON clauses and
  the WHERE clause. The reference is the same join chain run over tables that
  were filtered by their own guards beforehand (`Reference`).
 */
module JoinPlacement {
  import opened Wrappers
  import opened JoinChain
  import opened ThreeValued

  /** A predicate over one table instance, evaluated on a NULL extension too. */
  type Guard = Option<Row> -> Truth

  type Condition = Combined -> Truth

  datatype Table = Table(rows: seq<Row>, defaults: seq<Guard>, ctx: seq<Guard>)

  /** `on` is absent for a nil condition, which renders as true. */
  datatype Join = Join(kind: JoinKind, table: Table, on: Option<Condition>)

  datatype Query = Query(from: Table, joins: seq<Join>, wheres: seq<Condition>)

  /** A guard written into a clause, naming the instance it reads. */
  datatype Placed = Placed(instance: nat, guard: Guard)

  /** Instance 0 is FROM; instance k is the table of join k - 1. */
  function TableAt(q: Query, k: nat): Table
    requires k <= |q.joins|
  {
    if k == 0 then q.from else q.joins[k - 1].table
  }

  predicate KeepsOwnOn(kind: JoinKind) {
    kind == Left || kind == Full || kind == Any
  }

  predicate PreservesRight(kind: JoinKind) {
    kind == Right || kind == Full
  }

  // ---------------------------------------------------------------- placement

  /** The first join at or after `i` that preserves its right side, or -1. */
  function NextPreserving(joins: seq<Join>, i: nat): (slot: int)
    requires i <= |joins|
    ensures slot == -1 || i <= slot < |joins|
    ensures slot >= 0 ==> PreservesRight(joins[slot].kind)
    ensures forall j :: i <= j < (if slot < 0 then |joins| else slot) ==> !PreservesRight(joins[j].kind)
    decreases |joins| - i
  {
    if i == |joins| then -1
    else if PreservesRight(joins[i].kind) then i
    else NextPreserving(joins, i + 1)
  }

  /** The clause the guards of instance k belong in: a join's ON, or -1 for WHERE. */
  function Slot(q: Query, k: nat): (slot: int)
    requires k <= |q.joins|
    ensures -1 <= slot < |q.joins|
  {
    if k > 0 && KeepsOwnOn(q.joins[k - 1].kind) then k - 1 else NextPreserving(q.joins, k)
  }

  method FilterPlacement(joins: seq<Join>, after: int, kind: JoinKind) returns (slot: int)
    requires -1 <= after < |joins|
    ensures KeepsOwnOn(kind) ==> slot == after
    ensures !KeepsOwnOn(kind) ==> slot == NextPreserving(joins, after + 1)
  {
    if kind == Left || kind == Full || kind == Any {
      return after;
    }
    var i := after + 1;
    while i < |joins|
      invariant after < i <= |joins|
      invariant NextPreserving(joins, after + 1) == NextPreserving(joins, i)
    {
      if joins[i].kind == Right || joins[i].kind == Full {
        return i;
      }
      i := i + 1;
    }
    return -1;
  }

  function Tag(k: nat, gs: seq<Guard>): (ps: seq<Placed>)
    ensures |ps| == |gs| && forall i :: 0 <= i < |gs| ==> ps[i] == Placed(k, gs[i])
  {
    seq(|gs|, i requires 0 <= i < |gs| => Placed(k, gs[i]))
  }

  /** Every guard of the first `n` instances that belongs in clause `slot`, in clause order. */
  function GuardsFor(q: Query, slot: int, n: nat, defaults: bool, ctx: bool): (ps: seq<Placed>)
    requires n <= |q.joins| + 1
  {
    if n == 0 then []
    else
      var k := n - 1;
      var before := GuardsFor(q, slot, k, defaults, ctx);
      if Slot(q, k) != slot then before
      else before + (if defaults then Tag(k, TableAt(q, k).defaults) else [])
                  + (if ctx then Tag(k, TableAt(q, k).ctx) else [])
  }

  method PlaceFilters(q: Query)
    returns (onExtra: seq<seq<Placed>>, defaults: seq<Placed>, ctxPreds: seq<Placed>)
    ensures |onExtra| == |q.joins|
    ensures forall i :: 0 <= i < |q.joins| ==> onExtra[i] == GuardsFor(q, i, |q.joins| + 1, true, true)
    ensures defaults == GuardsFor(q, -1, |q.joins| + 1, true, false)
    ensures ctxPreds == GuardsFor(q, -1, |q.joins| + 1, false, true)
  {
    onExtra := seq(|q.joins|, _ => []);
    defaults, ctxPreds := [], [];
    var slot := FilterPlacement(q.joins, -1, Inner);
    if slot >= 0 {
      onExtra := onExtra[slot := onExtra[slot] + Tag(0, q.from.defaults) + Tag(0, q.from.ctx)];
    } else {
      defaults := defaults + Tag(0, q.from.defaults);
      ctxPreds := ctxPreds + Tag(0, q.from.ctx);
    }
    for i := 0 to |q.joins|
      invariant |onExtra| == |q.joins|
      invariant forall s :: 0 <= s < |q.joins| ==> onExtra[s] == GuardsFor(q, s, i + 1, true, true)
      invariant defaults == GuardsFor(q, -1, i + 1, true, false)
      invariant ctxPreds == GuardsFor(q, -1, i + 1, false, true)
    {
      var j := q.joins[i];
      slot := FilterPlacement(q.joins, i, j.kind);
      if slot >= 0 {
        onExtra := onExtra[slot := onExtra[slot] + Tag(i + 1, j.table.defaults) + Tag(i + 1, j.table.ctx)];
      } else {
        defaults := defaults + Tag(i + 1, j.table.defaults);
        ctxPreds := ctxPreds + Tag(i + 1, j.table.ctx);
      }
    }
  }

  // --------------------------------------------------------------- evaluation

  function Conj(ps: seq<Placed>, c: Combined): Truth {
    if ps == [] then True
    else
      var p := ps[|ps| - 1];
      Conjunction(Conj(ps[..|ps| - 1], c), if p.instance < |c| then p.guard(c[p.instance]) else Unknown)
  }

  function ConjConditions(cs: seq<Condition>, c: Combined): Truth {
    if cs == [] then True else Conjunction(ConjConditions(cs[..|cs| - 1], c), cs[|cs| - 1](c))
  }

  /** The caller's conditions are all asked. */
  lemma {:induction false} AllConditions(cs: seq<Condition>, c: Combined)
    ensures ConjConditions(cs, c) == True <==> forall i :: 0 <= i < |cs| ==> cs[i](c) == True
  {
    if cs != [] {
      AllConditions(cs[..|cs| - 1], c);
    }
  }

  function OnTruth(on: Option<Condition>, c: Combined): Truth {
    match on case None => True case Some(p) => p(c)
  }

  /** The caller's ON condition alone. */
  function CallerOn(q: Query, i: nat): Combined -> bool
    requires i < |q.joins|
  {
    c => OnTruth(q.joins[i].on, c) == True
  }

  /** The ON clause of join i as rendered: the caller's condition and the guards placed there. */
  function RenderedOn(q: Query, i: nat): Combined -> bool
    requires i < |q.joins|
  {
    c => Conjunction(OnTruth(q.joins[i].on, c), Conj(GuardsFor(q, i, |q.joins| + 1, true, true), c)) == True
  }

  /** Join i of the rendered statement. */
  function RenderedJoin(q: Query, pick: Pick): (nat, seq<Combined>) -> seq<Combined> {
    (i: nat, left: seq<Combined>) =>
      if i < |q.joins| then JoinStep(q.joins[i].kind, pick, i, left, q.joins[i].table.rows, RenderedOn(q, i)) else left
  }

  /** The WHERE clause: default filters, then the caller's predicates, then the request-time ones. */
  function RenderedWhere(q: Query): Combined -> bool {
    c => Conjunction(Conjunction(Conj(GuardsFor(q, -1, |q.joins| + 1, true, false), c), ConjConditions(q.wheres, c)),
              Conj(GuardsFor(q, -1, |q.joins| + 1, false, true), c)) == True
  }

  /** The rows the rendered statement returns. */
  function Returned(q: Query, pick: Pick): seq<Combined> {
    Keep(RenderedWhere(q), Chain(FromRows(q.from.rows), RenderedJoin(q, pick), |q.joins|))
  }

  // ---------------------------------------------------------------- reference

  /** All guards of a table hold of a row. */
  predicate Visible(t: Table, r: Option<Row>) {
    && (forall i :: 0 <= i < |t.defaults| ==> t.defaults[i](r) == True)
    && (forall i :: 0 <= i < |t.ctx| ==> t.ctx[i](r) == True)
  }

  function Shows(t: Table): Row -> bool {
    r => Visible(t, Some(r))
  }

  /** Join i of the caller's statement, over the visible rows of its table. */
  function ReferenceJoin(q: Query, pick: Pick): (nat, seq<Combined>) -> seq<Combined> {
    (i: nat, left: seq<Combined>) =>
      if i < |q.joins|
      then JoinStep(q.joins[i].kind, pick, i, left, KeepRows(Shows(q.joins[i].table), q.joins[i].table.rows),
                    CallerOn(q, i))
      else left
  }

  function CallerWhere(q: Query): Combined -> bool {
    c => ConjConditions(q.wheres, c) == True
  }

  /** The caller's query over tables already filtered by their own guards. */
  function Reference(q: Query, pick: Pick): seq<Combined> {
    Keep(CallerWhere(q), Chain(FromRows(KeepRows(Shows(q.from), q.from.rows)), ReferenceJoin(q, pick), |q.joins|))
  }
}
