/** When a plan has nothing to say about a table, and what that is worth. */
module SchemaSilence {
  import opened Wrappers
  import opened StringOrder
  import opened TypeChange
  import opened SchemaStatements
  import opened SchemaDiff
  import opened SchemaTheorems
  import opened SchemaDeterminism

  // ------------------------------------------------------------ live against declared

  ghost predicate DefaultAgrees(live: Column, want: Column, norm: Normalizer) {
    if want.default == "" then !(live.kind == "DEFAULT" && live.default != "")
    else norm(live.default) == norm(want.default)
  }

  /** What the declaration says of a column's storage is what the column has. */
  ghost predicate StorageAgrees(live: Column, want: Column, norm: Normalizer) {
    DefaultAgrees(live, want, norm) && live.codec == want.codec
  }

  /** Its type and comment agree, and it is of a kind the diff can read back. */
  ghost predicate ShapeAgrees(live: Column, want: Column) {
    && Settled(want.typ, live.typ) && live.comment == want.comment
    && (live.kind == "" || live.kind == "DEFAULT") && want.ttl == ""
  }

  ghost predicate TTLAgrees(prev: Table, cur: Table, norm: Normalizer) {
    prev.ttl == cur.ttl || (prev.ttl != "" && cur.ttl != "" && norm(prev.ttl) == norm(cur.ttl))
  }

  ghost predicate EngineAgrees(prev: Table, cur: Table) {
    cur.engine != "" ==> EqualFold(prev.engine, cur.engine) && prev.params == cur.params
  }

  ghost predicate SettingsAgree(prev: Table, cur: Table) {
    forall k :: k in cur.settings ==> k in prev.settings && prev.settings[k] == cur.settings[k]
  }

  /** All that concerns the table as a whole. */
  ghost predicate TableAgrees(prev: Table, cur: Table, norm: Normalizer) {
    && EngineAgrees(prev, cur) && prev.sortingKey == cur.sortingKey && prev.primaryKey == cur.primaryKey
    && prev.partitionKey == cur.partitionKey && prev.sampleBy == cur.sampleBy
    && TTLAgrees(prev, cur, norm) && SettingsAgree(prev, cur)
  }

  /** The live table is what was declared: the same columns, each with the declared shape and storage. */
  ghost predicate Matches(prev: Table, cur: Table, norm: Normalizer) {
    && TableAgrees(prev, cur, norm) && prev.columns.Keys == cur.columns.Keys
    && forall n :: n in cur.columns && n in prev.columns ==>
         ShapeAgrees(prev.columns[n], cur.columns[n]) && StorageAgrees(prev.columns[n], cur.columns[n], norm)
  }

  /** A key column whose DEFAULT or codec is not the declared one. */
  ghost predicate KeyDrifts(prev: Table, cur: Table, norm: Normalizer, n: string) {
    && n in cur.columns && n in prev.columns && prev.columns[n].InKey()
    && !StorageAgrees(prev.columns[n], cur.columns[n], norm)
  }

  ghost predicate SomeKeyDrifts(prev: Table, cur: Table, norm: Normalizer) {
    exists n :: KeyDrifts(prev, cur, norm, n)
  }

  // ------------------------------------------------------------------- saying nothing

  ghost predicate SaysNothing(table: string, prev: Table, cur: Table, norm: Normalizer) {
    && (forall y :: IsLayout(cur, y) ==> TableOps(prev, cur, norm, y) == [])
    && TableRefusals(table, prev, cur) == [] && TableNotices(table, prev, cur, norm) == []
  }

  lemma {:induction false} ConcatEmpty<T>(names: seq<string>, m: map<string, seq<T>>)
    ensures Concat(names, m) == [] <==> forall k :: k in names && k in m ==> m[k] == []
  {
    if names != [] {
      ConcatEmpty(names[1..], m);
      assert forall k :: k in names <==> k == names[0] || k in names[1..];
    }
  }

  lemma InOrderEmpty<T>(s: set<string>, m: map<string, seq<T>>)
    ensures Concat(InOrder(s), m) == [] <==> forall k :: k in s && k in m ==> m[k] == []
  {
    InOrderDistinct(s);
    ConcatEmpty(InOrder(s), m);
    hide InOrder, Concat;
  }

  /** What is said of a column that is on both sides. */
  lemma ColumnSilentIff(table: string, live: Column, want: Column, norm: Normalizer)
    ensures RemovalOps(live, want) == [] && ColumnOps(live, want, norm) == []
            && ColumnRefusals(table, live, want) == [] && ColumnNotices(table, live, want) == []
       <==> ShapeAgrees(live, want) && (live.InKey() || StorageAgrees(live, want, norm))
  {
    hide ClassifyTypeChange, Settled;
    UnchangedIsSettled(want.typ, live.typ, live.InKey());
  }

  /** What is said of the table as a whole. */
  lemma TableSilentIff(table: string, prev: Table, cur: Table, norm: Normalizer)
    ensures TailOps(prev, cur) == [] && ShapeRefusals(table, prev, cur) == []
            && ShapeNotices(table, prev, cur) == [] && TTLNotices(table, prev, cur, norm) == []
       <==> TableAgrees(prev, cur, norm)
  {
    InOrderEmpty(cur.settings.Keys, Settings(prev, cur));
    hide InOrder, Concat, EqualFold, EngineText, KeyText;
    var m := Settings(prev, cur);
    assert (forall k :: k in cur.settings.Keys && k in m ==> m[k] == []) <==> SettingsAgree(prev, cur) by {
      forall k | k in cur.settings
        ensures k in m <==> !(k in prev.settings && prev.settings[k] == cur.settings[k])
      {
      }
    }
  }

  ghost predicate ColumnIsSilent(table: string, prev: Table, cur: Table, norm: Normalizer, n: string)
    requires n in cur.columns && n in prev.columns
  {
    var (live, want) := (prev.columns[n], cur.columns[n]);
    && RemovalOps(live, want) == [] && ColumnOps(live, want, norm) == []
    && ColumnRefusals(table, live, want) == [] && ColumnNotices(table, live, want) == []
  }

  lemma DropsEmpty(table: string, prev: Table, cur: Table)
    ensures Concat(InOrder(prev.columns.Keys), Drops(prev, cur)) == []
            && Concat(InOrder(prev.columns.Keys), KeptColumns(table, prev, cur)) == []
       <==> prev.columns.Keys <= cur.columns.Keys
  {
    InOrderEmpty(prev.columns.Keys, Drops(prev, cur));
    InOrderEmpty(prev.columns.Keys, KeptColumns(table, prev, cur));
    hide Concat, InOrder;
    forall n | n in prev.columns && n !in cur.columns
      ensures Drops(prev, cur)[n] != [] || KeptColumns(table, prev, cur)[n] != []
    {
    }
  }

  lemma AdditionsEmpty(prev: Table, cur: Table, y: Layout)
    requires IsLayout(cur, y)
    ensures y.before.Keys == cur.columns.Keys
    ensures Concat(y.order, Additions(prev, cur, y.before)) == [] <==> cur.columns.Keys <= prev.columns.Keys
  {
    LayoutNames(cur, y);
    var m := Additions(prev, cur, y.before);
    ConcatEmpty(y.order, m);
    InElements(y.order);
    hide Concat, IsLayout, Elements;
    forall n | n in cur.columns ensures n in m <==> n !in prev.columns {
    }
    forall n | n in m ensures m[n] != [] && n in y.order {
    }
  }

  lemma OpsEmpty(prev: Table, cur: Table, norm: Normalizer, y: Layout)
    requires IsLayout(cur, y)
    ensures y.before.Keys == cur.columns.Keys
    ensures TableOps(prev, cur, norm, y) == [] <==>
      && Concat(InOrder(cur.columns.Keys), Removals(prev, cur)) == []
      && Concat(y.order, Additions(prev, cur, y.before)) == []
      && Concat(InOrder(cur.columns.Keys), Restatements(prev, cur, norm)) == []
      && Concat(InOrder(prev.columns.Keys), Drops(prev, cur)) == [] && TailOps(prev, cur) == []
  {
    LayoutNames(cur, y);
    hide Concat, InOrder, TailOps, Removals, Restatements, Drops, Additions, IsLayout;
  }

  lemma PhasesEmpty(table: string, prev: Table, cur: Table, norm: Normalizer)
    ensures Concat(InOrder(cur.columns.Keys), Removals(prev, cur)) == []
            && Concat(InOrder(cur.columns.Keys), Restatements(prev, cur, norm)) == []
            && Concat(InOrder(cur.columns.Keys), TypeRefusals(table, prev, cur)) == []
            && Concat(InOrder(cur.columns.Keys), NoticedColumns(table, prev, cur)) == []
       <==> forall n :: n in cur.columns && n in prev.columns ==> ColumnIsSilent(table, prev, cur, norm, n)
  {
    hide RemovalOps, ColumnOps, ColumnRefusals, ColumnNotices;
    InOrderEmpty(cur.columns.Keys, Removals(prev, cur));
    InOrderEmpty(cur.columns.Keys, Restatements(prev, cur, norm));
    InOrderEmpty(cur.columns.Keys, TypeRefusals(table, prev, cur));
    InOrderEmpty(cur.columns.Keys, NoticedColumns(table, prev, cur));
    hide Concat, InOrder;
  }

  ghost predicate AllSilent(table: string, prev: Table, cur: Table, norm: Normalizer) {
    forall n :: n in cur.columns && n in prev.columns ==> ColumnIsSilent(table, prev, cur, norm, n)
  }

  lemma PartsHold(prev: Table, cur: Table, norm: Normalizer, y: Layout)
    requires IsLayout(cur, y)
    ensures Parts(prev, cur, norm, y)
  {
    hide Concat, InOrder, TailOps, Removals, Restatements, Drops, Additions, IsLayout, TableOps;
    OpsEmpty(prev, cur, norm, y);
    AdditionsEmpty(prev, cur, y);
  }

  lemma ReportsEmpty(table: string, prev: Table, cur: Table, norm: Normalizer)
    ensures TableRefusals(table, prev, cur) == [] <==>
      && ShapeRefusals(table, prev, cur) == []
      && Concat(InOrder(cur.columns.Keys), TypeRefusals(table, prev, cur)) == []
      && Concat(InOrder(prev.columns.Keys), KeptColumns(table, prev, cur)) == []
    ensures TableNotices(table, prev, cur, norm) == [] <==>
      && ShapeNotices(table, prev, cur) == []
      && Concat(InOrder(cur.columns.Keys), NoticedColumns(table, prev, cur)) == []
      && TTLNotices(table, prev, cur, norm) == []
  {
    hide Concat, InOrder, TypeRefusals, NoticedColumns, KeptColumns, ShapeRefusals, ShapeNotices, TTLNotices;
  }

  lemma SaysNothingIff(table: string, prev: Table, cur: Table, norm: Normalizer)
    ensures SaysNothing(table, prev, cur, norm) <==>
      TableAgrees(prev, cur, norm) && prev.columns.Keys == cur.columns.Keys && AllSilent(table, prev, cur, norm)
  {
    hide Concat, InOrder, TailOps, Removals, Restatements, Drops, Additions, IsLayout, TypeRefusals, NoticedColumns,
         KeptColumns, ShapeRefusals, ShapeNotices, TTLNotices, TableAgrees, ColumnIsSilent, TableOps, TableRefusals,
         TableNotices;
    var some := LayoutExists(cur);
    PartsHold(prev, cur, norm, some);
    forall y | IsLayout(cur, y) ensures Parts(prev, cur, norm, y) {
      PartsHold(prev, cur, norm, y);
    }
    DropsEmpty(table, prev, cur);
    PhasesEmpty(table, prev, cur, norm);
    TableSilentIff(table, prev, cur, norm);
    ReportsEmpty(table, prev, cur, norm);
  }

  /** A table's statements are none exactly when every phase has none. */
  ghost predicate Parts(prev: Table, cur: Table, norm: Normalizer, y: Layout) {
    y.before.Keys == cur.columns.Keys
    && (TableOps(prev, cur, norm, y) == [] <==>
          && Concat(InOrder(cur.columns.Keys), Removals(prev, cur)) == []
          && cur.columns.Keys <= prev.columns.Keys
          && Concat(InOrder(cur.columns.Keys), Restatements(prev, cur, norm)) == []
          && Concat(InOrder(prev.columns.Keys), Drops(prev, cur)) == [] && TailOps(prev, cur) == [])
  }

  /**
    A plan that says nothing of a table, no statement, no refusal and no notice, is made of a table
    that is what was declared, unless a key column's DEFAULT or codec is not: that is passed over.
    A table that is what was declared always gets such a plan.
   */
  lemma SilenceIsAgreement(table: string, prev: Table, cur: Table, norm: Normalizer)
    ensures Matches(prev, cur, norm) ==> SaysNothing(table, prev, cur, norm)
    ensures SaysNothing(table, prev, cur, norm) ==> (Matches(prev, cur, norm) <==> !SomeKeyDrifts(prev, cur, norm))
  {
    SaysNothingIff(table, prev, cur, norm);
    forall n | n in cur.columns && n in prev.columns
      ensures ColumnIsSilent(table, prev, cur, norm, n) <==>
        ShapeAgrees(prev.columns[n], cur.columns[n])
        && (prev.columns[n].InKey() || StorageAgrees(prev.columns[n], cur.columns[n], norm))
    {
      ColumnSilentIff(table, prev.columns[n], cur.columns[n], norm);
    }
    hide SaysNothing, TableAgrees, ShapeAgrees, StorageAgrees, ColumnIsSilent;
    if SaysNothing(table, prev, cur, norm) && !Matches(prev, cur, norm) {
      var n :|
        && n in cur.columns && n in prev.columns
        && !(ShapeAgrees(prev.columns[n], cur.columns[n]) && StorageAgrees(prev.columns[n], cur.columns[n], norm));
      assert KeyDrifts(prev, cur, norm, n);
    }
  }

  function SortedById(c: Column): Table {
    With(map["id" := c]).(sortingKey := "id", primaryKey := "id")
  }

  /** A key column declared with another codec than it has: the plan says nothing of it. */
  lemma KeyCodecPassedOver(table: string, norm: Normalizer)
    ensures var live := TextColumn("id", 1).(inSortingKey := true, inPrimaryKey := true, codec := "NONE");
      var want := TextColumn("id", 1).(codec := "ZSTD(1)");
      var (prev, cur) := (SortedById(live), SortedById(want));
      SaysNothing(table, prev, cur, norm) && !Matches(prev, cur, norm)
  {
    var live := TextColumn("id", 1).(inSortingKey := true, inPrimaryKey := true, codec := "NONE");
    var want := TextColumn("id", 1).(codec := "ZSTD(1)");
    var (prev, cur) := (SortedById(live), SortedById(want));
    SaysNothingIff(table, prev, cur, norm);
    ColumnSilentIff(table, live, want, norm);
    hide SaysNothing, Settled;
    assert Settled("String", "String") by {
      SameIsSettled("String");
    }
    assert AllSilent(table, prev, cur, norm);
    assert !StorageAgrees(prev.columns["id"], cur.columns["id"], norm);
  }

  lemma SameIsSettled(t: string)
    ensures Settled(t, t)
  {
  }
}
