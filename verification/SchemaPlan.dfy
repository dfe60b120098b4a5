/** The plan under construction: every helper of the diff appends to it. */
module SchemaPlan {
  import opened Wrappers
  import opened StringOrder
  import opened TypeChange
  import opened SchemaStatements
  import opened SchemaDiff

  function Alters(table: string, ops: seq<Op>): seq<Stmt> {
    if ops == [] then [] else [Alter(table, ops[0])] + Alters(table, ops[1..])
  }

  lemma {:induction false} AltersConcat(table: string, a: seq<Op>, b: seq<Op>)
    ensures Alters(table, a + b) == Alters(table, a) + Alters(table, b)
  {
    if a == [] {
      assert a + b == b;
    } else {
      assert (a + b)[1..] == a[1..] + b;
      AltersConcat(table, a[1..], b);
    }
  }

  lemma AltersNone(table: string)
    ensures Alters(table, []) == []
  {
  }

  lemma AltersOne(table: string, op: Op)
    ensures Alters(table, [op]) == [Alter(table, op)]
  {
  }

  /** One turn of a loop that appends the statements of each name in turn. */
  lemma AltersStep(table: string, names: seq<string>, i: nat, m: map<string, seq<Op>>)
    requires i < |names|
    ensures Alters(table, Concat(names[..i + 1], m)) ==
            Alters(table, Concat(names[..i], m)) + Alters(table, At(m, names[i]))
  {
    hide Concat, At, Alters;
    ConcatStep(names, i, m);
    AltersConcat(table, Concat(names[..i], m), At(m, names[i]));
  }

  lemma LoopBounds<T>(s: set<string>, names: seq<string>, m: map<string, seq<T>>, table: string)
    requires names == InOrder(s)
    ensures Concat(names[..0], m) == [] && names[..|names|] == names && Alters(table, []) == []
    ensures forall i :: 0 <= i < |names| ==> names[i] in s
  {
    InOrderDistinct(s);
  }

  // ---------------------------------------------------------------- whole schema

  type Schema = map<string, Table>

  /** The column orders of the created tables and the layouts of the altered ones. */
  datatype Choices = Choices(orders: map<string, seq<string>>, layouts: map<string, Layout>)

  ghost predicate AreChoices(prev: Schema, cur: Schema, ch: Choices) {
    && ch.orders.Keys == cur.Keys - prev.Keys
    && (forall k :: k in ch.orders ==> IsDeclarationOrder(cur[k], ch.orders[k]))
    && ch.layouts.Keys == cur.Keys * prev.Keys
    && FitLayouts(prev, cur, ch.layouts)
  }

  function DroppedTables(prev: Schema, cur: Schema): map<string, seq<Stmt>> {
    map k | k in prev && k !in cur :: [DropTable(k)]
  }

  function CreatedTables(cur: Schema, orders: map<string, seq<string>>): map<string, seq<Stmt>>
    requires orders.Keys <= cur.Keys
  {
    map k | k in orders :: [CreateTable(k, cur[k], orders[k])]
  }

  ghost predicate FitLayouts(prev: Schema, cur: Schema, layouts: map<string, Layout>) {
    forall k :: k in layouts ==> k in prev && k in cur && layouts[k].before.Keys == cur[k].columns.Keys
                                 && IsLayout(cur[k], layouts[k])
  }

  ghost function AlteredTables(prev: Schema, cur: Schema, norm: Normalizer, layouts: map<string, Layout>)
    : map<string, seq<Stmt>>
    requires FitLayouts(prev, cur, layouts)
  {
    map k | k in layouts :: Alters(k, TableOps(prev[k], cur[k], norm, layouts[k]))
  }

  ghost function RefusedTables(prev: Schema, cur: Schema): map<string, seq<Refusal>> {
    map k | k in cur && k in prev :: TableRefusals(k, prev[k], cur[k])
  }

  ghost function NoticedTables(prev: Schema, cur: Schema, norm: Normalizer): map<string, seq<Notice>> {
    map k | k in cur && k in prev :: TableNotices(k, prev[k], cur[k], norm)
  }

  ghost function DiffNotices(prev: Schema, cur: Schema, norm: Normalizer): seq<Notice> {
    Concat(InOrder(cur.Keys), NoticedTables(prev, cur, norm))
  }

  /** Drops, then creations, then the alterations of every surviving table. */
  ghost function DiffStatements(prev: Schema, cur: Schema, norm: Normalizer, ch: Choices): seq<Stmt>
    requires AreChoices(prev, cur, ch)
  {
    Concat(InOrder(prev.Keys), DroppedTables(prev, cur))
    + Concat(InOrder(cur.Keys), CreatedTables(cur, ch.orders))
    + Concat(InOrder(cur.Keys), AlteredTables(prev, cur, norm, ch.layouts))
  }

  ghost function DiffRefusals(prev: Schema, cur: Schema): seq<Refusal> {
    Concat(InOrder(cur.Keys), RefusedTables(prev, cur))
  }

  lemma ConcatNone<T>(m: map<string, seq<T>>)
    ensures Concat([], m) == []
  {
  }

  /** The column each declared column follows. */
  method BeforeEach(cur: Table, order: seq<string>) returns (before: map<string, Option<string>>)
    requires IsDeclarationOrder(cur, order)
    ensures before.Keys == cur.columns.Keys
    ensures forall n :: n in cur.columns ==> IsColumnBefore(cur, n, before[n])
  {
    before := map[];
    assert order[..|order|] == order;
    for i := 0 to |order|
      invariant before.Keys == Elements(order[..i])
      invariant forall n :: n in before ==> n in cur.columns && IsColumnBefore(cur, n, before[n])
    {
      hide IsColumnBefore;
      var b := ColumnBefore(cur, order[i]);
      assert order[..i + 1] == order[..i] + [order[i]];
      ElementsSnoc(order[..i], order[i]);
      before := before[order[i] := b];
    }
  }

  // -------------------------------------------------------------------- the plan

  class Plan {
    var statements: seq<Stmt>
    var refusals: seq<Refusal>
    var notices: seq<Notice>

    constructor ()
      ensures statements == [] && refusals == [] && notices == []
    {
      statements, refusals, notices := [], [], [];
    }

    method Emit(table: string, op: Op)
      modifies this`statements
      ensures statements == old(statements) + Alters(table, [op])
    {
      AltersOne(table, op);
      statements := statements + [Alter(table, op)];
    }

    method DiffShape(table: string, prev: Table, cur: Table)
      modifies this`refusals, this`notices
      ensures refusals == old(refusals) + ShapeRefusals(table, prev, cur)
      ensures notices == old(notices) + ShapeNotices(table, prev, cur)
    {
      if cur.engine != "" && !EqualFold(prev.engine, cur.engine) {
        refusals := refusals + [Refusal(RefuseEngine, table, "", prev.engine, cur.engine)];
      } else if cur.engine != "" && prev.params != cur.params {
        refusals := refusals + [Refusal(RefuseEngine, table, "", EngineText(prev.engine, prev.params),
                                        EngineText(cur.engine, cur.params))];
      }
      assert refusals == old(refusals) + EngineRefusals(table, prev, cur);
      DiffKey(RefuseSortingKey, table, prev.sortingKey, cur.sortingKey);
      DiffKey(RefusePrimaryKey, table, prev.primaryKey, cur.primaryKey);
      DiffKey(RefusePartitionKey, table, prev.partitionKey, cur.partitionKey);
      DiffSample(table, prev, cur);
    }

    method DiffSample(table: string, prev: Table, cur: Table)
      modifies this`notices
      ensures notices == old(notices) + ShapeNotices(table, prev, cur)
    {
      if prev.sampleBy != cur.sampleBy {
        notices := notices + [Notice(SampleKey, table, "")];
      }
    }

    method DiffKey(kind: RefusalKind, table: string, live: string, want: string)
      modifies this`refusals
      ensures refusals == old(refusals) + KeyRefusals(kind, table, live, want)
    {
      if live != want {
        refusals := refusals + [Refusal(kind, table, "", KeyText(live), KeyText(want))];
      }
    }

    method DiffColumnRemovals(table: string, live: Column, want: Column)
      modifies this`statements
      ensures statements == old(statements) + Alters(table, RemovalOps(live, want))
    {
      if live.InKey() {
        return;
      }
      ghost var first: seq<Op> := [];
      if live.kind == "DEFAULT" && live.default != "" && want.default == "" {
        Emit(table, RemoveDefault(want.name));
        first := [RemoveDefault(want.name)];
      }
      if live.codec != "" && want.codec == "" {
        Emit(table, RemoveCodec(want.name));
        AltersConcat(table, first, [RemoveCodec(want.name)]);
      } else {
        assert first + [] == first;
      }
    }

    method DiffColumnComment(table: string, live: Column, want: Column)
      modifies this`statements
      ensures statements == old(statements) + Alters(table, CommentOps(live, want))
    {
      if live.comment == want.comment {
        return;
      }
      Emit(table, CommentColumn(want.name, want.comment));
    }

    /** What the diff can see of a column and leaves to a human. */
    method DiffWithheld(table: string, live: Column, want: Column)
      modifies this`notices
      ensures notices == old(notices) + ColumnNotices(table, live, want)
    {
      if live.kind != "" && live.kind != "DEFAULT" {
        notices := notices + [Notice(UnrepresentableColumn, table, want.name)];
      }
      if want.ttl != "" {
        notices := notices + [Notice(ColumnTTL, table, want.name)];
      }
    }

    method DiffColumn(table: string, live: Column, want: Column, norm: Normalizer)
      modifies this`statements, this`refusals, this`notices
      ensures notices == old(notices) + ColumnNotices(table, live, want)
      ensures statements == old(statements) + Alters(table, ColumnOps(live, want, norm))
      ensures refusals == old(refusals) + ColumnRefusals(table, live, want)
    {
      hide ClassifyTypeChange, ColumnNotices;
      DiffWithheld(table, live, want);
      var change := ClassifyTypeChange(want.typ, live.typ, live.InKey());
      if change.verdict == Refused {
        refusals := refusals + [Refusal(RefuseColumnType, table, want.name, live.typ, want.typ)];
        return;
      }
      if live.InKey() {
        DiffColumnComment(table, live, want);
        return;
      }
      var setsDefault := want.default != "" && norm(live.default) != norm(want.default);
      var setsCodec := want.codec != "" && live.codec != want.codec;
      if change.verdict != Unchanged || setsDefault || setsCodec {
        var typ := change.to;
        if typ == "" {
          typ := live.typ;
        }
        Emit(table, ModifyColumn(Def(want.name, typ, want.default, want.codec, want.ttl, want.comment)));
        AltersConcat(table, [Restatement(live, want)], CommentOps(live, want));
      }
      DiffColumnComment(table, live, want);
    }

    method DiffDropColumn(table: string, live: Column)
      modifies this`statements, this`refusals
      ensures statements == old(statements) + Alters(table, DropOps(live))
      ensures refusals == old(refusals) + DropRefusals(table, live)
    {
      if live.InKey() {
        refusals := refusals + [Refusal(RefuseDropColumn, table, live.name, live.typ, "")];
        return;
      }
      Emit(table, DropColumn(live.name));
    }

    method DiffTail(table: string, prev: Table, cur: Table, norm: Normalizer)
      modifies this`statements, this`notices
      ensures notices == old(notices) + TTLNotices(table, prev, cur, norm)
      ensures statements == old(statements) + Alters(table, TailOps(prev, cur))
    {
      hide Concat, Alters, InOrder;
      AltersNone(table);
      if prev.ttl == "" && cur.ttl != "" {
        Emit(table, ModifyTTL(cur.ttl));
      } else if prev.ttl != "" && cur.ttl == "" {
        Emit(table, RemoveTTL);
      } else if prev.ttl != cur.ttl && norm(prev.ttl) != norm(cur.ttl) {
        notices := notices + [Notice(TableTTL, table, "")];
      }
      assert statements == old(statements) + Alters(table, TTLOps(prev, cur));
      DiffSettings(table, prev, cur);
      AltersConcat(table, TTLOps(prev, cur), Concat(InOrder(cur.settings.Keys), Settings(prev, cur)));
    }

    /** Only the settings the declaration names. */
    method DiffSettings(table: string, prev: Table, cur: Table)
      modifies this`statements
      ensures statements == old(statements) + Alters(table, Concat(InOrder(cur.settings.Keys), Settings(prev, cur)))
    {
      hide Concat, Alters, InOrder, Sorted, Elements, Less, Distinct;
      ghost var m := Settings(prev, cur);
      var keys := SortedKeys(cur.settings.Keys);
      LoopBounds(cur.settings.Keys, keys, m, table);
      for i := 0 to |keys|
        invariant statements == old(statements) + Alters(table, Concat(keys[..i], m))
      {
        var key := keys[i];
        AltersStep(table, keys, i, m);
        if key in prev.settings && prev.settings[key] == cur.settings[key] {
          continue;
        }
        Emit(table, ModifySetting(key, cur.settings[key]));
      }
    }

    method RemovalPhase(table: string, prev: Table, cur: Table)
      modifies this`statements
      ensures statements == old(statements) + Alters(table, Concat(InOrder(cur.columns.Keys), Removals(prev, cur)))
    {
      hide Concat, Alters, InOrder, Sorted, Elements, Less, Distinct, RemovalOps;
      ghost var m := Removals(prev, cur);
      var names := SortedKeys(cur.columns.Keys);
      LoopBounds(cur.columns.Keys, names, m, table);
      for i := 0 to |names|
        invariant statements == old(statements) + Alters(table, Concat(names[..i], m))
      {
        var name := names[i];
        AltersStep(table, names, i, m);
        if name !in prev.columns {
          continue;
        }
        DiffColumnRemovals(table, prev.columns[name], cur.columns[name]);
      }
    }

    /** ADD COLUMN in ascending position, each after the column declared before it. */
    method AdditionPhase(table: string, prev: Table, cur: Table) returns (ghost y: Layout)
      modifies this`statements
      ensures IsLayout(cur, y) && y.before.Keys == cur.columns.Keys
      ensures statements == old(statements) + Alters(table, Concat(y.order, Additions(prev, cur, y.before)))
    {
      hide Concat, Alters, Elements, IsColumnBefore, Precedes;
      var order := ColumnsByPosition(cur);
      var before := BeforeEach(cur, order);
      y := Layout(order, before);
      ghost var m := Additions(prev, cur, before);
      AltersNone(table);
      assert order[..0] == [] && order[..|order|] == order && Concat([], m) == [] by { ConcatNone(m); }
      for i := 0 to |order|
        invariant statements == old(statements) + Alters(table, Concat(order[..i], m))
      {
        var name := order[i];
        AltersStep(table, order, i, m);
        if name in prev.columns {
          continue;
        }
        Emit(table, AddColumn(DefOf(cur.columns[name]), before[name]));
      }
    }

    method RestatementPhase(table: string, prev: Table, cur: Table, norm: Normalizer)
      modifies this`statements, this`refusals, this`notices
      ensures notices == old(notices) + Concat(InOrder(cur.columns.Keys), NoticedColumns(table, prev, cur))
      ensures statements ==
              old(statements) + Alters(table, Concat(InOrder(cur.columns.Keys), Restatements(prev, cur, norm)))
      ensures refusals == old(refusals) + Concat(InOrder(cur.columns.Keys), TypeRefusals(table, prev, cur))
    {
      hide Concat, Alters, InOrder, Sorted, Elements, Less, Distinct, ColumnOps, ColumnRefusals, ColumnNotices,
           TypeRefusals, NoticedColumns;
      ghost var m := Restatements(prev, cur, norm);
      ghost var r := TypeRefusals(table, prev, cur);
      ghost var t := NoticedColumns(table, prev, cur);
      var names := SortedKeys(cur.columns.Keys);
      LoopBounds(cur.columns.Keys, names, m, table);
      LoopBounds(cur.columns.Keys, names, r, table);
      LoopBounds(cur.columns.Keys, names, t, table);
      for i := 0 to |names|
        invariant statements == old(statements) + Alters(table, Concat(names[..i], m))
        invariant refusals == old(refusals) + Concat(names[..i], r)
        invariant notices == old(notices) + Concat(names[..i], t)
      {
        var name := names[i];
        AltersStep(table, names, i, m);
        ColumnReportStep(table, prev, cur, names, i);
        if name !in prev.columns {
          continue;
        }
        DiffColumn(table, prev.columns[name], cur.columns[name], norm);
      }
    }

    method DropPhase(table: string, prev: Table, cur: Table)
      modifies this`statements, this`refusals
      ensures statements == old(statements) + Alters(table, Concat(InOrder(prev.columns.Keys), Drops(prev, cur)))
      ensures refusals == old(refusals) + Concat(InOrder(prev.columns.Keys), KeptColumns(table, prev, cur))
    {
      hide Concat, Alters, InOrder, Sorted, Elements, Less, Distinct, DropOps, DropRefusals;
      ghost var m := Drops(prev, cur);
      ghost var r := KeptColumns(table, prev, cur);
      var names := SortedKeys(prev.columns.Keys);
      LoopBounds(prev.columns.Keys, names, m, table);
      LoopBounds(prev.columns.Keys, names, r, table);
      for i := 0 to |names|
        invariant statements == old(statements) + Alters(table, Concat(names[..i], m))
        invariant refusals == old(refusals) + Concat(names[..i], r)
      {
        var name := names[i];
        AltersStep(table, names, i, m);
        ConcatStep(names, i, r);
        if name in cur.columns {
          continue;
        }
        DiffDropColumn(table, prev.columns[name]);
      }
    }

    /** The differences between one live table and its declaration. */
    method DiffTable(table: string, prev: Table, cur: Table, norm: Normalizer) returns (ghost y: Layout)
      modifies this`statements, this`refusals, this`notices
      ensures IsLayout(cur, y) && y.before.Keys == cur.columns.Keys
      ensures statements == old(statements) + Alters(table, TableOps(prev, cur, norm, y))
      ensures refusals == old(refusals) + TableRefusals(table, prev, cur)
      ensures notices == old(notices) + TableNotices(table, prev, cur, norm)
    {
      hide Concat, Alters, InOrder, Sorted, Elements, TailOps, ShapeRefusals, TableOps, Removals, Additions,
           Restatements, Drops, TypeRefusals, KeptColumns, IsLayout, ShapeNotices, NoticedColumns, TTLNotices;
      hide TableRefusals, TableNotices;
      DiffShape(table, prev, cur);
      RemovalPhase(table, prev, cur);
      y := AdditionPhase(table, prev, cur);
      RestatementPhase(table, prev, cur, norm);
      DropPhase(table, prev, cur);
      DiffTail(table, prev, cur, norm);
      ReportsAre(table, prev, cur, norm, old(refusals), old(notices));
      TableOpsAlters(table, prev, cur, norm, y);
      Assemble(old(statements), Alters(table, Concat(InOrder(cur.columns.Keys), Removals(prev, cur))),
               Alters(table, Concat(y.order, Additions(prev, cur, y.before))),
               Alters(table, Concat(InOrder(cur.columns.Keys), Restatements(prev, cur, norm))),
               Alters(table, Concat(InOrder(prev.columns.Keys), Drops(prev, cur))),
               Alters(table, TailOps(prev, cur)));
    }

    method DropTables(prev: Schema, cur: Schema)
      modifies this`statements
      ensures statements == old(statements) + Concat(InOrder(prev.Keys), DroppedTables(prev, cur))
    {
      hide Concat, Alters, InOrder, Sorted, Elements, Less, Distinct;
      ghost var m := DroppedTables(prev, cur);
      var keys := SortedKeys(prev.Keys);
      LoopBounds(prev.Keys, keys, m, "");
      for i := 0 to |keys|
        invariant statements == old(statements) + Concat(keys[..i], m)
      {
        var key := keys[i];
        ConcatStep(keys, i, m);
        if key in cur {
          continue;
        }
        statements := statements + [DropTable(key)];
      }
    }

    method CreateTables(prev: Schema, cur: Schema) returns (ghost orders: map<string, seq<string>>)
      modifies this`statements
      ensures orders.Keys == cur.Keys - prev.Keys
      ensures forall k :: k in orders ==> IsDeclarationOrder(cur[k], orders[k])
      ensures statements == old(statements) + Concat(InOrder(cur.Keys), CreatedTables(cur, orders))
    {
      hide Concat, Alters, InOrder, Sorted, Elements, Less, Distinct, IsDeclarationOrder, CreatedTables;
      var keys := SortedKeys(cur.Keys);
      orders := map[];
      LoopStarts(cur.Keys, keys, CreatedTables(cur, orders));
      for i := 0 to |keys|
        invariant orders.Keys == Elements(keys[..i]) - prev.Keys && orders.Keys <= cur.Keys
        invariant forall k :: k in orders ==> IsDeclarationOrder(cur[k], orders[k])
        invariant statements == old(statements) + Concat(keys[..i], CreatedTables(cur, orders))
      {
        var key := keys[i];
        NotYet(keys, i);
        if key in prev {
          CreatedSkip(cur, orders, keys, i);
          continue;
        }
        var order := ColumnsByPosition(cur[key]);
        CreatedStep(cur, orders, keys, i, order);
        orders := orders[key := order];
        statements := statements + [CreateTable(key, cur[key], order)];
      }
    }

    method AlterTables(prev: Schema, cur: Schema, norm: Normalizer) returns (ghost layouts: map<string, Layout>)
      modifies this`statements, this`refusals, this`notices
      ensures layouts.Keys == cur.Keys * prev.Keys && FitLayouts(prev, cur, layouts)
      ensures statements == old(statements) + Concat(InOrder(cur.Keys), AlteredTables(prev, cur, norm, layouts))
      ensures refusals == old(refusals) + DiffRefusals(prev, cur)
      ensures notices == old(notices) + DiffNotices(prev, cur, norm)
    {
      hide Concat, Alters, InOrder, Sorted, Elements, Less, Distinct, IsLayout, TableOps, TableRefusals, TableNotices,
           AlteredTables, RefusedTables, NoticedTables;
      var keys := SortedKeys(cur.Keys);
      ghost var r := RefusedTables(prev, cur);
      ghost var t := NoticedTables(prev, cur, norm);
      layouts := map[];
      LoopStarts(cur.Keys, keys, AlteredTables(prev, cur, norm, layouts));
      LoopStarts(cur.Keys, keys, r);
      LoopStarts(cur.Keys, keys, t);
      for i := 0 to |keys|
        invariant layouts.Keys == Elements(keys[..i]) * prev.Keys && FitLayouts(prev, cur, layouts)
        invariant statements == old(statements) + Concat(keys[..i], AlteredTables(prev, cur, norm, layouts))
        invariant refusals == old(refusals) + Concat(keys[..i], r)
        invariant notices == old(notices) + Concat(keys[..i], t)
      {
        var key := keys[i];
        NotYet(keys, i);
        ReportStep(prev, cur, norm, keys, i);
        if key !in prev {
          AlteredSkip(prev, cur, norm, layouts, keys, i);
          continue;
        }
        var y := DiffTable(key, prev[key], cur[key], norm);
        AlteredStep(prev, cur, norm, layouts, keys, i, y);
        layouts := layouts[key := y];
      }
    }

    /** The whole diff, for some column orders that satisfy the ordering rules. */
    method Diff(prev: Schema, cur: Schema, norm: Normalizer) returns (ghost ch: Choices)
      modifies this`statements, this`refusals, this`notices
      ensures AreChoices(prev, cur, ch)
      ensures statements == old(statements) + DiffStatements(prev, cur, norm, ch)
      ensures refusals == old(refusals) + DiffRefusals(prev, cur)
      ensures notices == old(notices) + DiffNotices(prev, cur, norm)
    {
      hide Concat, InOrder, DroppedTables, CreatedTables, AlteredTables, DiffRefusals, DiffNotices, IsLayout,
           IsDeclarationOrder;
      DropTables(prev, cur);
      var orders := CreateTables(prev, cur);
      var layouts := AlterTables(prev, cur, norm);
      ch := Choices(orders, layouts);
    }
  }

  /** A table's refusals and notices, phase by phase. */
  lemma ReportsAre(table: string, prev: Table, cur: Table, norm: Normalizer, rs: seq<Refusal>, ns: seq<Notice>)
    ensures rs + ShapeRefusals(table, prev, cur) + Concat(InOrder(cur.columns.Keys), TypeRefusals(table, prev, cur))
            + Concat(InOrder(prev.columns.Keys), KeptColumns(table, prev, cur)) == rs + TableRefusals(table, prev, cur)
    ensures ns + ShapeNotices(table, prev, cur) + Concat(InOrder(cur.columns.Keys), NoticedColumns(table, prev, cur))
            + TTLNotices(table, prev, cur, norm) == ns + TableNotices(table, prev, cur, norm)
  {
    hide Concat, InOrder, ShapeRefusals, TypeRefusals, KeptColumns, ShapeNotices, NoticedColumns, TTLNotices;
  }

  /** What one more column adds to them. */
  lemma ColumnReportStep(table: string, prev: Table, cur: Table, names: seq<string>, i: nat)
    requires i < |names| && names[i] in cur.columns
    ensures var (n, r, t) := (names[i], TypeRefusals(table, prev, cur), NoticedColumns(table, prev, cur));
      && Concat(names[..i + 1], r) == Concat(names[..i], r)
           + (if n in prev.columns then ColumnRefusals(table, prev.columns[n], cur.columns[n]) else [])
      && Concat(names[..i + 1], t) == Concat(names[..i], t)
           + (if n in prev.columns then ColumnNotices(table, prev.columns[n], cur.columns[n]) else [])
  {
    hide Concat, ColumnRefusals, ColumnNotices;
    ConcatStep(names, i, TypeRefusals(table, prev, cur));
    ConcatStep(names, i, NoticedColumns(table, prev, cur));
  }

  /** What one more table adds to the refusals and the notices. */
  lemma ReportStep(prev: Schema, cur: Schema, norm: Normalizer, keys: seq<string>, i: nat)
    requires i < |keys| && keys[i] in cur
    ensures var k := keys[i];
      && Concat(keys[..i + 1], RefusedTables(prev, cur)) ==
           Concat(keys[..i], RefusedTables(prev, cur)) + (if k in prev then TableRefusals(k, prev[k], cur[k]) else [])
      && Concat(keys[..i + 1], NoticedTables(prev, cur, norm)) ==
           Concat(keys[..i], NoticedTables(prev, cur, norm))
           + (if k in prev then TableNotices(k, prev[k], cur[k], norm) else [])
  {
    hide Concat, TableRefusals, TableNotices;
    ConcatStep(keys, i, RefusedTables(prev, cur));
    ConcatStep(keys, i, NoticedTables(prev, cur, norm));
  }

  lemma LoopStarts<T>(s: set<string>, keys: seq<string>, m: map<string, seq<T>>)
    requires keys == InOrder(s)
    ensures Concat(keys[..0], m) == [] && Elements(keys[..0]) == {} && Elements(keys[..|keys|]) == s
    ensures keys[..|keys|] == keys && Distinct(keys)
    ensures forall i :: 0 <= i < |keys| ==> keys[i] in s
  {
    InOrderDistinct(s);
  }

  lemma NotYet(keys: seq<string>, i: nat)
    requires Distinct(keys) && i < |keys|
    ensures keys[i] !in keys[..i] && keys[i] !in Elements(keys[..i])
    ensures Elements(keys[..i + 1]) == Elements(keys[..i]) + {keys[i]}
  {
    assert keys[..i + 1] == keys[..i] + [keys[i]];
    ElementsSnoc(keys[..i], keys[i]);
  }

  lemma CreatedSkip(cur: Schema, orders: map<string, seq<string>>, keys: seq<string>, i: nat)
    requires i < |keys| && orders.Keys <= cur.Keys && keys[i] !in orders
    ensures Concat(keys[..i + 1], CreatedTables(cur, orders)) == Concat(keys[..i], CreatedTables(cur, orders))
  {
    hide Concat;
    ConcatStep(keys, i, CreatedTables(cur, orders));
  }

  lemma CreatedStep(cur: Schema, orders: map<string, seq<string>>, keys: seq<string>, i: nat, order: seq<string>)
    requires i < |keys| && orders.Keys <= cur.Keys && keys[i] in cur && keys[i] !in keys[..i]
    ensures var more := orders[keys[i] := order];
      Concat(keys[..i + 1], CreatedTables(cur, more)) ==
        Concat(keys[..i], CreatedTables(cur, orders)) + [CreateTable(keys[i], cur[keys[i]], order)]
  {
    hide Concat;
    var more := orders[keys[i] := order];
    ConcatUnseen(keys[..i], keys[i], CreatedTables(cur, orders), CreatedTables(cur, more));
    ConcatStep(keys, i, CreatedTables(cur, more));
  }

  lemma AlteredSkip(prev: Schema, cur: Schema, norm: Normalizer, layouts: map<string, Layout>, keys: seq<string>,
      i: nat)
    requires i < |keys| && FitLayouts(prev, cur, layouts) && keys[i] !in layouts
    ensures Concat(keys[..i + 1], AlteredTables(prev, cur, norm, layouts)) ==
            Concat(keys[..i], AlteredTables(prev, cur, norm, layouts))
  {
    hide Concat, TableOps, Alters, IsLayout;
    ConcatStep(keys, i, AlteredTables(prev, cur, norm, layouts));
  }

  lemma AlteredStep(prev: Schema, cur: Schema, norm: Normalizer, layouts: map<string, Layout>, keys: seq<string>,
      i: nat, y: Layout)
    requires i < |keys| && FitLayouts(prev, cur, layouts) && keys[i] in cur && keys[i] in prev && keys[i] !in keys[..i]
    requires IsLayout(cur[keys[i]], y) && y.before.Keys == cur[keys[i]].columns.Keys
    ensures FitLayouts(prev, cur, layouts[keys[i] := y])
    ensures Concat(keys[..i + 1], AlteredTables(prev, cur, norm, layouts[keys[i] := y])) ==
            Concat(keys[..i], AlteredTables(prev, cur, norm, layouts))
            + Alters(keys[i], TableOps(prev[keys[i]], cur[keys[i]], norm, y))
  {
    hide Concat, TableOps, Alters, IsLayout;
    var more := layouts[keys[i] := y];
    ConcatUnseen(keys[..i], keys[i], AlteredTables(prev, cur, norm, layouts), AlteredTables(prev, cur, norm, more));
    ConcatStep(keys, i, AlteredTables(prev, cur, norm, more));
  }

  /** A name that has not come up yet may still be given its statements. */
  lemma ConcatUnseen<T>(names: seq<string>, n: string, a: map<string, seq<T>>, b: map<string, seq<T>>)
    requires n !in names && forall k :: k != n ==> At(a, k) == At(b, k)
    ensures Concat(names, a) == Concat(names, b)
  {
    ConcatSame(names, a, b);
  }

  lemma TableOpsAlters(table: string, prev: Table, cur: Table, norm: Normalizer, y: Layout)
    requires y.before.Keys == cur.columns.Keys
    ensures Alters(table, TableOps(prev, cur, norm, y)) ==
            Alters(table, Concat(InOrder(cur.columns.Keys), Removals(prev, cur)))
            + Alters(table, Concat(y.order, Additions(prev, cur, y.before)))
            + Alters(table, Concat(InOrder(cur.columns.Keys), Restatements(prev, cur, norm)))
            + Alters(table, Concat(InOrder(prev.columns.Keys), Drops(prev, cur)))
            + Alters(table, TailOps(prev, cur))
  {
    hide Concat, Alters, InOrder, TailOps;
    var a := Concat(InOrder(cur.columns.Keys), Removals(prev, cur));
    var b := Concat(y.order, Additions(prev, cur, y.before));
    var c := Concat(InOrder(cur.columns.Keys), Restatements(prev, cur, norm));
    var d := Concat(InOrder(prev.columns.Keys), Drops(prev, cur));
    AltersConcat(table, a + b + c + d, TailOps(prev, cur));
    AltersConcat(table, a + b + c, d);
    AltersConcat(table, a + b, c);
    AltersConcat(table, a, b);
  }

  lemma Assemble(s: seq<Stmt>, a: seq<Stmt>, b: seq<Stmt>, c: seq<Stmt>, d: seq<Stmt>, e: seq<Stmt>)
    ensures s + a + b + c + d + e == s + (a + b + c + d + e)
  {
  }
}
