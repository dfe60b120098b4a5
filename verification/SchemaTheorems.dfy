/** What a plan does to a table, and why the next plan for it is empty. */
module SchemaTheorems {
  import opened Wrappers
  import opened StringOrder
  import opened TypeChange
  import opened SchemaStatements
  import opened SchemaDiff
  import opened SchemaConvergence

  /** A declaration: every column under its own name, with some type. */
  ghost predicate Declared(cur: Table) {
    Named(cur) && forall n :: n in cur.columns ==> cur.columns[n].typ != ""
  }

  /** Undeclared columns that take part in a key, which no ALTER drops. */
  ghost function Stuck(prev: Table, cur: Table): set<string> {
    set n | n in prev.columns && n !in cur.columns && prev.columns[n].InKey()
  }

  ghost predicate OnlyColumns(a: Table, b: Table) {
    b == a.(columns := b.columns)
  }

  // --------------------------------------------------------------------- stages

  ghost predicate AfterRemovals(prev: Live, cur: Table, l: Live) {
    && OnlyColumns(prev.table, l.table) && l.order == prev.order
    && l.table.columns.Keys == prev.table.columns.Keys
    && forall n :: n in prev.table.columns ==>
         l.table.columns[n] ==
         if n in cur.columns then Removed(prev.table.columns[n], cur.columns[n]) else prev.table.columns[n]
  }

  ghost predicate AddedAsDeclared(srv: Server, prev: Table, cur: Table, t: Table) {
    forall n :: n in cur.columns && n !in prev.columns ==>
      n in t.columns && MadeAs(srv, t.columns[n], cur.columns[n]) && !t.columns[n].InKey()
  }

  ghost predicate AfterAdditions(srv: Server, prev: Live, cur: Table, y: Layout, l: Live) {
    && OnlyColumns(prev.table, l.table) && l.order == AddOrder(prev.order, y.order, prev.table, y.before)
    && l.table.columns.Keys == prev.table.columns.Keys + cur.columns.Keys
    && AddedAsDeclared(srv, prev.table, cur, l.table)
    && forall n :: n in prev.table.columns ==>
         l.table.columns[n] ==
         if n in cur.columns then Removed(prev.table.columns[n], cur.columns[n]) else prev.table.columns[n]
  }

  ghost predicate AfterRestatements(srv: Server, norm: Normalizer, prev: Live, cur: Table, y: Layout, l: Live) {
    && OnlyColumns(prev.table, l.table) && l.order == AddOrder(prev.order, y.order, prev.table, y.before)
    && l.table.columns.Keys == prev.table.columns.Keys + cur.columns.Keys
    && AddedAsDeclared(srv, prev.table, cur, l.table)
    && forall n :: n in prev.table.columns ==>
         l.table.columns[n] ==
         if n in cur.columns then Restated(srv, prev.table.columns[n], cur.columns[n], norm) else prev.table.columns[n]
  }

  ghost predicate ColumnsDone(srv: Server, norm: Normalizer, prev: Table, cur: Table, t: Table) {
    && t.columns.Keys == cur.columns.Keys + Stuck(prev, cur)
    && AddedAsDeclared(srv, prev, cur, t)
    && forall n :: n in t.columns && n in prev.columns ==>
         t.columns[n] ==
         if n in cur.columns then Restated(srv, prev.columns[n], cur.columns[n], norm) else prev.columns[n]
  }

  ghost predicate AfterDrops(srv: Server, norm: Normalizer, prev: Live, cur: Table, y: Layout, l: Live) {
    && OnlyColumns(prev.table, l.table) && ColumnsDone(srv, norm, prev.table, cur, l.table)
    && Keep(l.order, cur.columns.Keys) ==
       Keep(AddOrder(prev.order, y.order, prev.table, y.before), cur.columns.Keys)
  }

  ghost predicate TailDone(srv: Server, prev: Table, cur: Table, t: Table) {
    && t.ttl == (if cur.ttl == "" then "" else if prev.ttl == "" then srv.echoTTL(cur.ttl) else prev.ttl)
    && forall k :: k in cur.settings ==> k in t.settings && t.settings[k] == SettingLeft(srv, prev, cur, k)
  }

  /** The table once the whole plan has run. */
  ghost predicate Outcome(srv: Server, norm: Normalizer, prev: Live, cur: Table, y: Layout, l: Live) {
    && l.table == prev.table.(columns := l.table.columns, ttl := l.table.ttl, settings := l.table.settings)
    && ColumnsDone(srv, norm, prev.table, cur, l.table) && TailDone(srv, prev.table, cur, l.table)
    && Keep(l.order, cur.columns.Keys) ==
       Keep(AddOrder(prev.order, y.order, prev.table, y.before), cur.columns.Keys)
  }

  // -------------------------------------------------------------- stage by stage

  ghost function Before(prev: Table, cur: Table): map<string, Column> {
    map n | n in cur.columns && n in prev.columns :: prev.columns[n]
  }

  ghost function Between(prev: Table, cur: Table): map<string, Column> {
    map n | n in cur.columns && n in prev.columns :: Removed(prev.columns[n], cur.columns[n])
  }

  ghost function Final(srv: Server, norm: Normalizer, prev: Table, cur: Table): map<string, Column> {
    map n | n in cur.columns && n in prev.columns :: Restated(srv, prev.columns[n], cur.columns[n], norm)
  }

  lemma RemovalsRewrite(srv: Server, prev: Table, cur: Table)
    requires Named(cur)
    ensures var ops := Removals(prev, cur);
      && ops.Keys == Before(prev, cur).Keys == Between(prev, cur).Keys
      && forall n :: n in ops ==> Rewrites(srv, ops[n], n, Before(prev, cur)[n], Between(prev, cur)[n])
  {
    hide Rewrites, RemovalOps, Removed;
    forall n | n in Removals(prev, cur)
      ensures Rewrites(srv, Removals(prev, cur)[n], n, Before(prev, cur)[n], Between(prev, cur)[n])
    {
      RemovalRewrites(srv, n, prev.columns[n], cur.columns[n]);
    }
  }

  lemma RestatementsRewrite(srv: Server, norm: Normalizer, prev: Table, cur: Table)
    requires Named(cur)
    ensures var ops := Restatements(prev, cur, norm);
      && ops.Keys == Between(prev, cur).Keys == Final(srv, norm, prev, cur).Keys
      && forall n :: n in ops ==> Rewrites(srv, ops[n], n, Between(prev, cur)[n], Final(srv, norm, prev, cur)[n])
  {
    hide Rewrites, ColumnOps, Removed, Restated;
    forall n | n in Restatements(prev, cur, norm)
      ensures Rewrites(srv, Restatements(prev, cur, norm)[n], n, Between(prev, cur)[n], Final(srv, norm, prev, cur)[n])
    {
      RestatementRewrites(srv, n, prev.columns[n], cur.columns[n], norm);
    }
  }

  lemma OverwrittenMeans(s: set<string>, m: map<string, Column>, target: map<string, Column>)
    ensures var o := Overwritten(m, InOrder(s), target);
      && o.Keys == m.Keys
      && forall n :: n in m ==> o[n] == if n in s && n in target then target[n] else m[n]
  {
    InOrderDistinct(s);
  }

  lemma SourceMatches(s: set<string>, ops: map<string, seq<Op>>, source: map<string, Column>, l: Live)
    requires ops.Keys == source.Keys
    requires forall n :: n in source ==> n in l.table.columns && l.table.columns[n] == source[n]
    ensures forall n :: n in InOrder(s) && n in ops ==> n in l.table.columns && l.table.columns[n] == source[n]
    ensures Distinct(InOrder(s))
  {
    InOrderDistinct(s);
  }

  lemma RemovalStage(srv: Server, prev: Live, cur: Table)
    requires Named(cur)
    ensures var r := Run(srv, Concat(InOrder(cur.columns.Keys), Removals(prev.table, cur)), prev);
      r.Ok? && AfterRemovals(prev, cur, r.value)
  {
    hide Run, Concat, InOrder, Rewrites, Removed, Distinct, Elements, Sorted, Removals, Overwritten, Named;
    var target := Between(prev.table, cur);
    RemovalsRewrite(srv, prev.table, cur);
    SourceMatches(cur.columns.Keys, Removals(prev.table, cur), Before(prev.table, cur), prev);
    PhaseRun(srv, InOrder(cur.columns.Keys), Removals(prev.table, cur), Before(prev.table, cur), target, prev);
    OverwrittenMeans(cur.columns.Keys, prev.table.columns, target);
  }

  /** The column an AFTER names comes earlier in the declaration order. */
  lemma BeforeIsEarlier(cur: Table, y: Layout, columns: set<string>)
    requires IsLayout(cur, y)
    ensures AfterPresent(y.order, y.before, columns)
  {
    hide Less, Elements, Precedes;
    forall i | 0 <= i < |y.order| && y.before[y.order[i]].Some?
      ensures y.before[y.order[i]].value in y.order[..i]
    {
      var j := EarlierOne(cur, y, i);
    }
  }

  lemma Positioned(cur: Table, order: seq<string>, a: nat, b: nat)
    requires IsDeclarationOrder(cur, order) && a < |order| && b < |order|
    ensures order[a] in cur.columns && order[b] in cur.columns
    ensures a <= b ==> cur.columns[order[a]].position <= cur.columns[order[b]].position
    ensures a != b ==> order[a] != order[b]
  {
    hide Less, Elements;
    PrecedesIsDistinct(cur, order);
    assert a < b ==> Precedes(cur, order[a], order[b]);
  }

  lemma IndexOfColumn(cur: Table, order: seq<string>, n: string) returns (j: nat)
    requires IsDeclarationOrder(cur, order) && n in cur.columns
    ensures j < |order| && order[j] == n
  {
    hide Less, Precedes;
    assert n in Elements(order);
    j :| 0 <= j < |order| && order[j] == n;
  }

  /** Where the column that the i-th column is put after stands in the declaration order. */
  lemma EarlierOne(cur: Table, y: Layout, i: nat) returns (j: nat)
    requires IsLayout(cur, y) && i < |y.order| && y.order[i] in y.before && y.before[y.order[i]].Some?
    ensures j < i && y.order[j] == y.before[y.order[i]].value && y.order[j] in y.order[..i]
  {
    hide IsDeclarationOrder;
    assert IsColumnBefore(cur, y.order[i], y.before[y.order[i]]);
    j := IndexOfColumn(cur, y.order, y.before[y.order[i]].value);
    Positioned(cur, y.order, i, j);
    assert y.order[..i][j] == y.order[j];
  }

  lemma AdditionStage(srv: Server, prev: Live, cur: Table, y: Layout, l: Live)
    requires Named(cur) && IsLayout(cur, y) && AfterRemovals(prev, cur, l)
    ensures var r := Run(srv, Concat(y.order, Additions(prev.table, cur, y.before)), l);
      r.Ok? && AfterAdditions(srv, prev, cur, y, r.value)
  {
    hide Run, Concat, AfterPresent, Distinct, Precedes, Stored, Removed, AddOrder, Elements, IsDeclarationOrder,
         Additions, IsColumnBefore;
    LayoutReady(prev, cur, y, l);
    AddsRun(srv, y.order, prev.table, cur, y.before, l);
    var more := Run(srv, Concat(y.order, Additions(prev.table, cur, y.before)), l).value;
    LayoutNames(cur, y);
    ExtendedMeans(srv, prev, cur, y, l, more);
  }

  lemma LayoutNames(cur: Table, y: Layout)
    requires IsLayout(cur, y)
    ensures Elements(y.order) == cur.columns.Keys && y.before.Keys == cur.columns.Keys
  {
  }

  lemma LayoutReady(prev: Live, cur: Table, y: Layout, l: Live)
    requires Named(cur) && IsLayout(cur, y) && l.table.columns.Keys == prev.table.columns.Keys
    ensures ReadyToAdd(y.order, prev.table, cur, y.before, l)
  {
    PrecedesIsDistinct(cur, y.order);
    BeforeIsEarlier(cur, y, l.table.columns.Keys);
    InElements(y.order);
    hide AfterPresent, Distinct, Precedes, IsColumnBefore, Elements;
  }

  lemma ExtendedMeans(srv: Server, prev: Live, cur: Table, y: Layout, l: Live, more: Live)
    requires AfterRemovals(prev, cur, l) && Extended(srv, cur, l, more, cur.columns.Keys - prev.table.columns.Keys)
    requires more.order == AddOrder(l.order, y.order, prev.table, y.before)
    ensures AfterAdditions(srv, prev, cur, y, more)
  {
    hide Stored, Removed, AddOrder, MadeAs;
    forall n | n in cur.columns && n !in prev.table.columns
      ensures MadeAs(srv, more.table.columns[n], cur.columns[n]) && !more.table.columns[n].InKey()
    {
      StoredIsMade(srv, cur.columns[n], (false, false, false));
    }
  }

  lemma RestatementStage(srv: Server, norm: Normalizer, prev: Live, cur: Table, y: Layout, l: Live)
    requires Named(cur) && AfterAdditions(srv, prev, cur, y, l)
    ensures var r := Run(srv, Concat(InOrder(cur.columns.Keys), Restatements(prev.table, cur, norm)), l);
      r.Ok? && AfterRestatements(srv, norm, prev, cur, y, r.value)
  {
    hide Run, Concat, InOrder, Rewrites, Removed, Restated, Distinct, Elements, Sorted, Stored, AddOrder, Restatements,
         Overwritten, Named;
    var (source, target) := (Between(prev.table, cur), Final(srv, norm, prev.table, cur));
    RestatementsRewrite(srv, norm, prev.table, cur);
    SourceMatches(cur.columns.Keys, Restatements(prev.table, cur, norm), source, l);
    PhaseRun(srv, InOrder(cur.columns.Keys), Restatements(prev.table, cur, norm), source, target, l);
    OverwrittenMeans(cur.columns.Keys, l.table.columns, target);
  }

  lemma DropStage(srv: Server, norm: Normalizer, prev: Live, cur: Table, y: Layout, l: Live)
    requires Named(prev.table) && AfterRestatements(srv, norm, prev, cur, y, l)
    ensures var r := Run(srv, Concat(InOrder(prev.table.columns.Keys), Drops(prev.table, cur)), l);
      r.Ok? && AfterDrops(srv, norm, prev, cur, y, r.value)
  {
    InOrderDistinct(prev.table.columns.Keys);
    hide Run, Concat, InOrder, Restated, Distinct, Elements, Sorted, Stored, AddOrder, Keep, Drops, Named;
    DropsRun(srv, InOrder(prev.table.columns.Keys), prev.table, cur, l);
    var dropped := Run(srv, Concat(InOrder(prev.table.columns.Keys), Drops(prev.table, cur)), l);
    ShrunkMeans(srv, norm, prev, cur, y, l, dropped.value);
  }

  lemma ShrunkMeans(srv: Server, norm: Normalizer, prev: Live, cur: Table, y: Layout, l: Live, less: Live)
    requires AfterRestatements(srv, norm, prev, cur, y, l)
    requires Shrunk(cur, l, less, Doomed(InOrder(prev.table.columns.Keys), prev.table, cur))
    ensures AfterDrops(srv, norm, prev, cur, y, less)
  {
    InOrderDistinct(prev.table.columns.Keys);
    hide InOrder, Restated, Distinct, Elements, Sorted, Stored, AddOrder, Keep;
    assert cur.columns.Keys + prev.table.columns.Keys - Doomed(InOrder(prev.table.columns.Keys), prev.table, cur)
        == cur.columns.Keys + Stuck(prev.table, cur);
  }

  lemma TTLStage(srv: Server, prev: Table, cur: Table, l: Live)
    requires l.table.ttl == prev.ttl
    ensures Run(srv, TTLOps(prev, cur), l) ==
            Ok(l.(table := l.table.(ttl := if cur.ttl == "" then ""
                                           else if prev.ttl == "" then srv.echoTTL(cur.ttl) else prev.ttl)))
  {
  }

  lemma TailStage(srv: Server, norm: Normalizer, prev: Live, cur: Table, y: Layout, l: Live)
    requires AfterDrops(srv, norm, prev, cur, y, l)
    ensures var r := Run(srv, TailOps(prev.table, cur), l); r.Ok? && Outcome(srv, norm, prev, cur, y, r.value)
  {
    hide Run, Concat, InOrder, Distinct, Elements, Sorted, ColumnsDone, AddOrder, Keep, Settings, TTLOps;
    TTLStage(srv, prev.table, cur, l);
    var names := InOrder(cur.settings.Keys);
    InOrderDistinct(cur.settings.Keys);
    RunConcat(srv, TTLOps(prev.table, cur), Concat(names, Settings(prev.table, cur)), l);
    var m := Run(srv, TTLOps(prev.table, cur), l).value;
    SettingsRun(srv, names, prev.table, cur, m);
    SettingsMeans(m.table.settings, SettingsLeft(srv, prev.table, cur));
    assert SettingsLeft(srv, prev.table, cur).Keys == cur.settings.Keys;
    hide SettingsAfter;
    ColumnsDoneFrame(srv, norm, prev.table, cur, l.table,
                     Run(srv, Concat(names, Settings(prev.table, cur)), m).value.table);
  }

  lemma SettingsMeans(had: map<string, string>, left: map<string, string>)
    ensures var s := SettingsAfter(had, InOrder(left.Keys), left); forall k :: k in left ==> k in s && s[k] == left[k]
  {
    InOrderDistinct(left.Keys);
  }

  lemma ColumnsDoneFrame(srv: Server, norm: Normalizer, prev: Table, cur: Table, a: Table, b: Table)
    requires ColumnsDone(srv, norm, prev, cur, a) && a.columns == b.columns
    ensures ColumnsDone(srv, norm, prev, cur, b)
  {
  }

  /** No statement of the plan fails, and the whole of it leaves the outcome described. */
  lemma PlanOutcome(srv: Server, norm: Normalizer, prev: Live, cur: Table, y: Layout)
    requires Named(prev.table) && Named(cur) && IsLayout(cur, y)
    ensures var r := Run(srv, TableOps(prev.table, cur, norm, y), prev);
      r.Ok? && Outcome(srv, norm, prev, cur, y, r.value)
  {
    assert y.before.Keys == cur.columns.Keys;
    hide Run, Concat, InOrder, Outcome, AfterDrops, AfterRestatements, AfterAdditions, AfterRemovals, TailOps,
         IsLayout, Named,
         Removals, Additions, Restatements, Drops;
    var a := Concat(InOrder(cur.columns.Keys), Removals(prev.table, cur));
    var b := Concat(y.order, Additions(prev.table, cur, y.before));
    var c := Concat(InOrder(cur.columns.Keys), Restatements(prev.table, cur, norm));
    var d := Concat(InOrder(prev.table.columns.Keys), Drops(prev.table, cur));
    var e := TailOps(prev.table, cur);
    RemovalStage(srv, prev, cur);
    var l1 := Run(srv, a, prev).value;
    AdditionStage(srv, prev, cur, y, l1);
    var l2 := Run(srv, b, l1).value;
    RestatementStage(srv, norm, prev, cur, y, l2);
    var l3 := Run(srv, c, l2).value;
    DropStage(srv, norm, prev, cur, y, l3);
    var l4 := Run(srv, d, l3).value;
    TailStage(srv, norm, prev, cur, y, l4);
    RunConcat(srv, a, b, prev);
    RunConcat(srv, a + b, c, prev);
    RunConcat(srv, a + b + c, d, prev);
    RunConcat(srv, a + b + c + d, e, prev);
  }

  // ----------------------------------------------------------------- convergence

  lemma OutcomeColumnsQuiet(srv: Server, norm: Normalizer, prev: Table, cur: Table, t: Table, n: string)
    requires Faithful(srv, norm) && Declared(cur) && ColumnsDone(srv, norm, prev, cur, t)
    requires n in cur.columns
    ensures n in t.columns && NothingLeft(t.columns[n], cur.columns[n], norm)
  {
    hide NothingLeft, Faithful, Restated, MadeAs;
    if n in prev.columns {
      ColumnSettles(srv, prev.columns[n], cur.columns[n], norm);
    } else {
      MadeSettles(srv, t.columns[n], cur.columns[n], norm);
    }
  }

  /** Every declared column is there and settled, and what is undeclared is stuck. */
  ghost predicate QuietColumns(norm: Normalizer, cur: Table, t: Table) {
    && (forall n :: n in cur.columns ==> n in t.columns && NothingLeft(t.columns[n], cur.columns[n], norm))
    && (forall n :: n in t.columns && n !in cur.columns ==> t.columns[n].InKey())
  }

  lemma QuietRemovals(norm: Normalizer, cur: Table, t: Table, names: seq<string>)
    requires QuietColumns(norm, cur, t)
    ensures Concat(names, Removals(t, cur)) == [] && Concat(names, Restatements(t, cur, norm)) == []
  {
    hide Concat, RemovalOps, ColumnOps;
    ConcatNothing(names, Removals(t, cur));
    ConcatNothing(names, Restatements(t, cur, norm));
  }

  lemma QuietAdditions(norm: Normalizer, cur: Table, t: Table, z: Layout, names: seq<string>)
    requires QuietColumns(norm, cur, t) && z.before.Keys == cur.columns.Keys
    ensures Concat(z.order, Additions(t, cur, z.before)) == [] && Concat(names, Drops(t, cur)) == []
  {
    hide Concat, NothingLeft;
    ConcatNothing(z.order, Additions(t, cur, z.before));
    ConcatNothing(names, Drops(t, cur));
  }

  lemma QuietTail(srv: Server, norm: Normalizer, prev: Table, cur: Table, t: Table)
    requires Faithful(srv, norm) && TailDone(srv, prev, cur, t)
    ensures TailOps(t, cur) == []
  {
    assert TTLOps(t, cur) == [];
    assert forall k :: k in cur.settings ==> SettingLeft(srv, prev, cur, k) == cur.settings[k];
    hide Concat, TTLOps, InOrder, Faithful;
    ConcatNothing(InOrder(cur.settings.Keys), Settings(t, cur));
  }

  /** After a plan has run, a fresh diff has no statement to make, however it lays new columns out. */
  lemma OutcomeIsQuiet(srv: Server, norm: Normalizer, prev: Live, cur: Table, y: Layout, l: Live, z: Layout)
    requires Faithful(srv, norm) && Declared(cur) && Outcome(srv, norm, prev, cur, y, l) && IsLayout(cur, z)
    ensures TableOps(l.table, cur, norm, z) == []
  {
    hide Concat, InOrder, Faithful, Restated, Stored, NothingLeft, TailDone, TailOps, Declared, Removals, Additions,
         Restatements, Drops, IsDeclarationOrder, IsColumnBefore, Keep, AddOrder;
    forall n | n in cur.columns ensures n in l.table.columns && NothingLeft(l.table.columns[n], cur.columns[n], norm) {
      OutcomeColumnsQuiet(srv, norm, prev.table, cur, l.table, n);
    }
    QuietRemovals(norm, cur, l.table, InOrder(cur.columns.Keys));
    QuietAdditions(norm, cur, l.table, z, InOrder(l.table.columns.Keys));
    QuietTail(srv, norm, prev.table, cur, l.table);
  }

  /** The part of a table no statement reaches: its engine, its keys and the types of its key columns. */
  ghost predicate SameKeys(a: Table, b: Table) {
    && a.engine == b.engine && a.params == b.params && a.sortingKey == b.sortingKey && a.primaryKey == b.primaryKey
    && a.partitionKey == b.partitionKey
    && forall n :: SameKeyColumn(a, b, n)
  }

  ghost predicate SameKeyColumn(a: Table, b: Table, n: string) {
    && ((n in a.columns && a.columns[n].InKey()) <==> (n in b.columns && b.columns[n].InKey()))
    && (n in a.columns && a.columns[n].InKey() ==>
          n in b.columns && a.columns[n].typ == b.columns[n].typ && a.columns[n].name == b.columns[n].name)
  }

  lemma ApplyKeepsKeys(srv: Server, op: Op, l: Live)
    ensures ApplyOp(srv, op, l).Ok? ==> SameKeys(l.table, ApplyOp(srv, op, l).value.table)
  {
  }

  lemma SameKeysTwice(a: Table, b: Table, c: Table)
    requires SameKeys(a, b) && SameKeys(b, c)
    ensures SameKeys(a, c)
  {
    forall n ensures SameKeyColumn(a, c, n) {
      assert SameKeyColumn(a, b, n) && SameKeyColumn(b, c, n);
    }
  }

  lemma {:induction false} RunKeepsKeys(srv: Server, ops: seq<Op>, l: Live)
    ensures Run(srv, ops, l).Ok? ==> SameKeys(l.table, Run(srv, ops, l).value.table)
  {
    hide ApplyOp;
    if ops != [] && ApplyOp(srv, ops[0], l).Ok? {
      var next := ApplyOp(srv, ops[0], l).value;
      ApplyKeepsKeys(srv, ops[0], l);
      RunKeepsKeys(srv, ops[1..], next);
      if Run(srv, ops, l).Ok? {
        hide SameKeys;
        SameKeysTwice(l.table, next.table, Run(srv, ops, l).value.table);
      }
    }
  }

  lemma SameTypeRefusals(table: string, a: Table, b: Table, cur: Table, n: string)
    requires SameKeyColumn(a, b, n)
    ensures At(TypeRefusals(table, a, cur), n) == At(TypeRefusals(table, b, cur), n)
  {
    hide ClassifyTypeChange;
    if n in cur.columns && n in a.columns {
      UnchangedIsSettled(cur.columns[n].typ, a.columns[n].typ, a.columns[n].InKey());
    }
    if n in cur.columns && n in b.columns {
      UnchangedIsSettled(cur.columns[n].typ, b.columns[n].typ, b.columns[n].InKey());
    }
  }

  /** Refusals are a function of the keys alone. */
  lemma SameKeysSameRefusals(table: string, a: Table, b: Table, cur: Table)
    requires SameKeys(a, b)
    ensures TableRefusals(table, a, cur) == TableRefusals(table, b, cur)
  {
    var names := InOrder(cur.columns.Keys);
    hide InOrder, Concat, EqualFold, EngineText, ClassifyTypeChange;
    forall i | 0 <= i < |names|
      ensures At(TypeRefusals(table, a, cur), names[i]) == At(TypeRefusals(table, b, cur), names[i])
    {
      assert SameKeyColumn(a, b, names[i]);
      SameTypeRefusals(table, a, b, cur, names[i]);
    }
    ConcatSame(names, TypeRefusals(table, a, cur), TypeRefusals(table, b, cur));
    assert Stuck(a, cur) == Stuck(b, cur) by {
      forall n ensures n in Stuck(a, cur) <==> n in Stuck(b, cur) {
        assert SameKeyColumn(a, b, n);
      }
    }
    KeptByStuck(table, a, b, cur);
    KeptByStuck(table, b, b, cur) by {
      forall n ensures SameKeyColumn(b, b, n) {
        assert SameKeyColumn(a, b, n);
      }
    }
  }

  lemma KeptByStuck(table: string, a: Table, b: Table, cur: Table)
    requires SameKeys(a, b)
    ensures Concat(InOrder(a.columns.Keys), KeptColumns(table, a, cur)) ==
            Concat(InOrder(Stuck(a, cur)), KeptColumns(table, b, cur))
  {
    var names := InOrder(Stuck(a, cur));
    InOrderDistinct(Stuck(a, cur));
    hide InOrder, Concat, Sorted, Elements, Distinct;
    ConcatSupport(a.columns.Keys, Stuck(a, cur), KeptColumns(table, a, cur));
    forall i | 0 <= i < |names|
      ensures At(KeptColumns(table, a, cur), names[i]) == At(KeptColumns(table, b, cur), names[i])
    {
      assert names[i] in Stuck(a, cur) && SameKeyColumn(a, b, names[i]);
    }
    ConcatSame(names, KeptColumns(table, a, cur), KeptColumns(table, b, cur));
  }

  /** The final column, for every declared column that is plain and in no key. */
  ghost predicate ReachesDeclaration(norm: Normalizer, prev: Table, cur: Table, t: Table) {
    forall n :: n in cur.columns ==>
      n in t.columns
      && (n !in prev.columns || (!prev.columns[n].InKey() && Plain(prev.columns[n])) ==>
            AsDeclared(t.columns[n], cur.columns[n], norm))
  }

  lemma OutcomeIsDeclared(srv: Server, norm: Normalizer, prev: Live, cur: Table, y: Layout, l: Live)
    requires Faithful(srv, norm) && Declared(cur) && Outcome(srv, norm, prev, cur, y, l)
    ensures ReachesDeclaration(norm, prev.table, cur, l.table)
  {
    forall n | n in cur.columns
      ensures n in l.table.columns
      ensures n !in prev.table.columns || (!prev.table.columns[n].InKey() && Plain(prev.table.columns[n])) ==>
                AsDeclared(l.table.columns[n], cur.columns[n], norm)
    {
      hide Faithful, Restated, MadeAs, AsDeclared, NothingLeft, Plain;
      if n in prev.table.columns {
        ColumnSettles(srv, prev.table.columns[n], cur.columns[n], norm);
      } else {
        MadeSettles(srv, l.table.columns[n], cur.columns[n], norm);
      }
    }
  }

  /** What convergence means for one table: it runs, it settles, and what was refused is still refused. */
  ghost predicate Converges(srv: Server, norm: Normalizer, prev: Live, cur: Table, y: Layout)
    requires IsLayout(cur, y)
  {
    var r := Run(srv, TableOps(prev.table, cur, norm, y), prev);
    && r.Ok? && WellFormed(r.value) && ReachesDeclaration(norm, prev.table, cur, r.value.table)
    && (forall z :: IsLayout(cur, z) ==> TableOps(r.value.table, cur, norm, z) == [])
    && (forall table :: TableRefusals(table, r.value.table, cur) == TableRefusals(table, prev.table, cur))
  }

  /** From every live table, under either reading of MODIFY COLUMN, running the plan converges. */
  lemma PlanConverges(srv: Server, norm: Normalizer, prev: Live, cur: Table, y: Layout)
    requires WellFormed(prev) && Declared(cur) && Faithful(srv, norm) && IsLayout(cur, y)
    ensures Converges(srv, norm, prev, cur, y)
  {
    assert y.before.Keys == cur.columns.Keys;
    assert Named(prev.table) && Named(cur);
    hide Run, TableOps, WellFormed, Outcome, IsLayout, Faithful, TableRefusals, ReachesDeclaration, Declared, Named;
    var ops := TableOps(prev.table, cur, norm, y);
    PlanOutcome(srv, norm, prev, cur, y);
    var l := Run(srv, ops, prev).value;
    RunKeepsShape(srv, ops, prev);
    RunKeepsKeys(srv, ops, prev);
    OutcomeIsDeclared(srv, norm, prev, cur, y, l);
    forall z | IsLayout(cur, z) ensures z.before.Keys == cur.columns.Keys && TableOps(l.table, cur, norm, z) == [] {
      LayoutNames(cur, z);
      OutcomeIsQuiet(srv, norm, prev, cur, y, l, z);
    }
    forall table ensures TableRefusals(table, l.table, cur) == TableRefusals(table, prev.table, cur) {
      SameKeysSameRefusals(table, prev.table, l.table, cur);
    }
  }

  /** A prefix of statements that all run runs too, and leaves the keys and the shape alone. */
  lemma PrefixRuns(srv: Server, ops: seq<Op>, k: nat, prev: Live, cur: Table)
    requires WellFormed(prev) && k <= |ops| && Run(srv, ops, prev).Ok?
    ensures var mid := Run(srv, ops[..k], prev);
      && mid.Ok? && WellFormed(mid.value)
      && forall table :: TableRefusals(table, mid.value.table, cur) == TableRefusals(table, prev.table, cur)
  {
    hide Run, WellFormed, TableRefusals;
    assert ops == ops[..k] + ops[k..];
    RunConcat(srv, ops[..k], ops[k..], prev);
    var mid := Run(srv, ops[..k], prev).value;
    RunKeepsShape(srv, ops[..k], prev);
    RunKeepsKeys(srv, ops[..k], prev);
    forall table ensures TableRefusals(table, mid.table, cur) == TableRefusals(table, prev.table, cur) {
      SameKeysSameRefusals(table, prev.table, mid.table, cur);
    }
  }

  /** Stopping after any number of statements loses nothing: a fresh diff from there converges too. */
  lemma PrefixConverges(srv: Server, norm: Normalizer, prev: Live, cur: Table, y: Layout, k: nat, z: Layout)
    requires WellFormed(prev) && Declared(cur) && Faithful(srv, norm) && IsLayout(cur, y) && IsLayout(cur, z)
    requires k <= |TableOps(prev.table, cur, norm, y)|
    ensures var mid := Run(srv, TableOps(prev.table, cur, norm, y)[..k], prev);
      && mid.Ok? && Converges(srv, norm, mid.value, cur, z)
      && forall table :: TableRefusals(table, mid.value.table, cur) == TableRefusals(table, prev.table, cur)
  {
    LayoutNames(cur, y);
    PlanConverges(srv, norm, prev, cur, y);
    var ops := TableOps(prev.table, cur, norm, y);
    assert Run(srv, ops, prev).Ok?;
    hide *;
    PrefixRuns(srv, ops, k, prev, cur);
    PlanConverges(srv, norm, Run(srv, ops[..k], prev).value, cur, z);
  }

  // -------------------------------------------------------------- physical order

  lemma {:induction false} KeepInsert(order: seq<string>, a: string, n: string, s: set<string>)
    requires a in s && n in s
    ensures Keep(InsertAfter(order, a, n), s) == InsertAfter(Keep(order, s), a, n)
  {
    if order != [] {
      var rest := order[1..];
      if order[0] == a {
        assert ([order[0], n] + rest)[1..] == [n] + rest;
        assert ([n] + rest)[1..] == rest;
        assert ([a] + Keep(rest, s))[1..] == Keep(rest, s);
      } else {
        KeepInsert(rest, a, n, s);
        assert ([order[0]] + InsertAfter(rest, a, n))[1..] == InsertAfter(rest, a, n);
        assert order[0] in s ==> ([order[0]] + Keep(rest, s))[1..] == Keep(rest, s);
      }
    }
  }

  lemma {:induction false} InsertAtEnd(front: seq<string>, back: seq<string>, n: string)
    requires front != [] && Distinct(front)
    ensures InsertAfter(front + back, front[|front| - 1], n) == front + [n] + back
  {
    var a := front[|front| - 1];
    assert (front + back)[1..] == front[1..] + back;
    if |front| == 1 {
      assert [front[0], n] + back == front + [n] + back;
    } else {
      assert front[0] != a;
      InsertAtEnd(front[1..], back, n);
      assert [front[0]] + (front[1..] + [n] + back) == front + [n] + back;
    }
  }

  /** With distinct positions each column is put after the one declared just before it. */
  ghost predicate Chained(order: seq<string>, before: map<string, Option<string>>) {
    forall i :: 0 <= i < |order| ==>
      order[i] in before && before[order[i]] == if i == 0 then None else Some(order[i - 1])
  }

  lemma BeforeIsPrevious(cur: Table, y: Layout)
    requires IsLayout(cur, y) && DistinctPositions(cur)
    ensures Chained(y.order, y.before)
  {
    hide Less, Elements;
    InElements(y.order);
    forall i | 0 <= i < |y.order|
      ensures y.before[y.order[i]] == if i == 0 then None else Some(y.order[i - 1])
    {
      PreviousOne(cur, y, i);
    }
  }

  lemma PositionsDiffer(cur: Table, order: seq<string>, a: nat, b: nat)
    requires IsDeclarationOrder(cur, order) && DistinctPositions(cur) && a < b < |order|
    ensures order[a] in cur.columns && order[b] in cur.columns
    ensures cur.columns[order[a]].position < cur.columns[order[b]].position
  {
    hide IsDeclarationOrder;
    Positioned(cur, order, a, b);
  }

  lemma LayoutAt(cur: Table, y: Layout, i: nat)
    requires IsLayout(cur, y) && i < |y.order|
    ensures IsDeclarationOrder(cur, y.order) && y.order[i] in cur.columns && y.order[i] in y.before
    ensures IsColumnBefore(cur, y.order[i], y.before[y.order[i]])
  {
    Positioned(cur, y.order, i, i);
    hide IsDeclarationOrder, IsColumnBefore;
  }

  lemma PreviousOne(cur: Table, y: Layout, i: nat)
    requires IsLayout(cur, y) && DistinctPositions(cur) && i < |y.order|
    ensures y.order[i] in y.before && y.before[y.order[i]] == if i == 0 then None else Some(y.order[i - 1])
  {
    hide IsLayout, IsDeclarationOrder, DistinctPositions;
    LayoutAt(cur, y, i);
    if i > 0 {
      PositionsDiffer(cur, y.order, i - 1, i);
      assert y.before[y.order[i]].Some?;
    }
    if y.before[y.order[i]].Some? {
      var j := EarlierOne(cur, y, i);
      if j < i - 1 {
        PositionsDiffer(cur, y.order, j, i - 1);
      }
    }
  }

  lemma ChainedAt(done: seq<string>, names: seq<string>, before: map<string, Option<string>>)
    requires names != [] && Distinct(done + names) && Chained(done + names, before)
    ensures names[0] in before && before[names[0]] == if done == [] then None else Some(done[|done| - 1])
    ensures Distinct(done) && done + [names[0]] + names[1..] == done + names
  {
    var all := done + names;
    assert all[|done|] == names[0] && all[..|done|] == done;
    assert done != [] ==> all[|done| - 1] == done[|done| - 1];
    assert before[all[|done|]] == if |done| == 0 then None else Some(all[|done| - 1]);
  }

  lemma PlacedKeeps(order: seq<string>, done: seq<string>, n: string, kept: seq<string>, s: set<string>)
    requires n in s && Distinct(done) && Keep(order, s) == done + kept
    requires done != [] ==> done[|done| - 1] in s
    ensures Keep(Placed(order, if done == [] then None else Some(done[|done| - 1]), n), s) == done + [n] + kept
  {
    if done == [] {
      assert ([n] + order)[1..] == order;
      assert done + kept == kept && done + [n] + kept == [n] + kept;
    } else {
      KeepInsert(order, done[|done| - 1], n, s);
      InsertAtEnd(done, kept, n);
    }
  }

  lemma {:induction false} AddOrderChained(order: seq<string>, done: seq<string>, names: seq<string>, prev: Table,
      s: set<string>, before: map<string, Option<string>>)
    requires Distinct(done + names) && Chained(done + names, before)
    requires forall n :: n in done + names ==> n in s
    requires Keep(order, s) == done + Keep(names, prev.columns.Keys)
    ensures Keep(AddOrder(order, names, prev, before), s) == done + names
    decreases |names|
  {
    hide Distinct, Chained, Placed;
    if names == [] {
      assert done + names == done && done + [] == done;
    } else {
      var (n, rest) := (names[0], names[1..]);
      var kept := Keep(rest, prev.columns.Keys);
      ChainedAt(done, names, before);
      assert n in done + names;
      if n in prev.columns {
        assert done + ([n] + kept) == done + [n] + kept;
        AddOrderChained(order, done + [n], rest, prev, s, before);
      } else {
        assert done != [] ==> done[|done| - 1] in done + names;
        PlacedKeeps(order, done, n, kept, s);
        AddOrderChained(Placed(order, before[n], n), done + [n], rest, prev, s, before);
      }
    }
  }

  lemma FinalOrder(prev: Live, cur: Table, y: Layout)
    requires IsLayout(cur, y) && DistinctPositions(cur)
    requires Keep(prev.order, cur.columns.Keys) == Keep(y.order, prev.table.columns.Keys)
    ensures Keep(AddOrder(prev.order, y.order, prev.table, y.before), cur.columns.Keys) == y.order
  {
    PrecedesIsDistinct(cur, y.order);
    BeforeIsPrevious(cur, y);
    InElements(y.order);
    hide Distinct, Chained, AddOrder, Keep, Elements, Precedes, IsColumnBefore;
    assert [] + y.order == y.order;
    assert [] + Keep(y.order, prev.table.columns.Keys) == Keep(y.order, prev.table.columns.Keys);
    AddOrderChained(prev.order, [], y.order, prev.table, cur.columns.Keys, y.before);
  }

  /** Declared columns end in declaration order when the surviving ones already were in it. */
  lemma EndsInDeclarationOrder(srv: Server, norm: Normalizer, prev: Live, cur: Table, y: Layout)
    requires Named(prev.table) && Named(cur) && IsLayout(cur, y) && DistinctPositions(cur)
    requires Keep(prev.order, cur.columns.Keys) == Keep(y.order, prev.table.columns.Keys)
    ensures var r := Run(srv, TableOps(prev.table, cur, norm, y), prev);
      r.Ok? && Keep(r.value.order, cur.columns.Keys) == y.order
  {
    LayoutNames(cur, y);
    hide Run, TableOps, AddOrder, Keep, ColumnsDone, TailDone, Named, IsLayout, DistinctPositions;
    PlanOutcome(srv, norm, prev, cur, y);
    FinalOrder(prev, cur, y);
  }
}
