/** Whole databases: creating, dropping and altering tables, and pushing a schema that may fail midway. */
module SchemaPush {
  import opened Wrappers
  import opened StringOrder
  import opened TypeChange
  import opened SchemaStatements
  import opened SchemaDiff
  import opened SchemaPlan
  import opened SchemaConvergence
  import opened SchemaTheorems

  type Database = map<string, Live>

  // ------------------------------------------------------------------- statements

  /** A new table. Without a PRIMARY KEY clause the sorting key is the primary key. */
  function Created(srv: Server, decl: Table, order: seq<string>): Live {
    Live(decl.(columns := map n | n in decl.columns :: Stored(srv, DefOf(decl.columns[n]), srv.keyFlags(decl, n)),
               primaryKey := if decl.primaryKey != "" && decl.primaryKey != decl.sortingKey
                             then decl.primaryKey else decl.sortingKey,
               ttl := if decl.ttl == "" then "" else srv.echoTTL(decl.ttl),
               settings := map k | k in decl.settings :: srv.echoSetting(k, decl.settings[k])),
         order)
  }

  function ApplyStmt(srv: Server, stmt: Stmt, db: Database): Result<Database, Fault> {
    match stmt
    case DropTable(k) => if k !in db then Err(NoSuchTable) else Ok(db - {k})
    case CreateTable(k, decl, order) => if k in db then Err(TableExists) else Ok(db[k := Created(srv, decl, order)])
    case Alter(k, op) =>
      if k !in db then Err(NoSuchTable)
      else
        match ApplyOp(srv, op, db[k])
        case Err(e) => Err(e)
        case Ok(l) => Ok(db[k := l])
  }

  function Exec(srv: Server, stmts: seq<Stmt>, db: Database): Result<Database, Fault> {
    if stmts == [] then Ok(db)
    else
      match ApplyStmt(srv, stmts[0], db)
      case Err(e) => Err(e)
      case Ok(next) => Exec(srv, stmts[1..], next)
  }

  lemma {:induction false} ExecConcat(srv: Server, a: seq<Stmt>, b: seq<Stmt>, db: Database)
    ensures Exec(srv, a + b, db) ==
            match Exec(srv, a, db) { case Err(e) => Err(e) case Ok(next) => Exec(srv, b, next) }
  {
    hide ApplyStmt;
    if a == [] {
      assert a + b == b;
    } else {
      assert (a + b)[1..] == a[1..] + b;
      if ApplyStmt(srv, a[0], db).Ok? {
        ExecConcat(srv, a[1..], b, ApplyStmt(srv, a[0], db).value);
      }
    }
  }

  lemma {:induction false} ExecAlters(srv: Server, k: string, ops: seq<Op>, db: Database)
    requires k in db
    ensures Exec(srv, Alters(k, ops), db) ==
            match Run(srv, ops, db[k]) { case Err(e) => Err(e) case Ok(l) => Ok(db[k := l]) }
  {
    hide ApplyOp;
    if ops == [] {
      assert db[k := db[k]] == db;
    } else {
      assert Alters(k, ops)[1..] == Alters(k, ops[1..]);
      if ApplyOp(srv, ops[0], db[k]).Ok? {
        var next := db[k := ApplyOp(srv, ops[0], db[k]).value];
        ExecAlters(srv, k, ops[1..], next);
        if Run(srv, ops, db[k]).Ok? {
          var l := Run(srv, ops, db[k]).value;
          assert next[k := l] == db[k := l];
        }
      }
    }
  }

  // ------------------------------------------------------ one table at a time

  function Look(db: Database, k: string): Option<Live> {
    if k in db then Some(db[k]) else None
  }

  function Put(db: Database, k: string, l: Option<Live>): Database {
    match l
    case None => db - {k}
    case Some(v) => db[k := v]
  }

  lemma PutLook(db: Database, k: string, l: Option<Live>)
    ensures forall j :: Look(Put(db, k, l), j) == if j == k then l else Look(db, j)
  {
  }

  /** Running the statements takes table k from x to y, None standing for no table, and no other table moves. */
  ghost predicate Turns(srv: Server, stmts: seq<Stmt>, k: string, x: Option<Live>, y: Option<Live>) {
    forall db: Database :: Look(db, k) == x ==> Exec(srv, stmts, db) == Ok(Put(db, k, y))
  }

  lemma ExecOne(srv: Server, stmt: Stmt, db: Database)
    ensures Exec(srv, [stmt], db) == ApplyStmt(srv, stmt, db)
  {
    hide ApplyStmt;
    assert [stmt][1..] == [];
  }

  lemma DropTurns(srv: Server, k: string, l: Live)
    ensures Turns(srv, [DropTable(k)], k, Some(l), None)
  {
    forall db: Database | Look(db, k) == Some(l) ensures Exec(srv, [DropTable(k)], db) == Ok(Put(db, k, None)) {
      ExecOne(srv, DropTable(k), db);
    }
  }

  lemma CreateTurns(srv: Server, k: string, decl: Table, order: seq<string>)
    ensures Turns(srv, [CreateTable(k, decl, order)], k, None, Some(Created(srv, decl, order)))
  {
    forall db: Database | Look(db, k) == None
      ensures Exec(srv, [CreateTable(k, decl, order)], db) == Ok(Put(db, k, Some(Created(srv, decl, order))))
    {
      ExecOne(srv, CreateTable(k, decl, order), db);
    }
  }

  lemma AlterTurns(srv: Server, k: string, ops: seq<Op>, l: Live)
    requires Run(srv, ops, l).Ok?
    ensures Turns(srv, Alters(k, ops), k, Some(l), Some(Run(srv, ops, l).value))
  {
    hide Run, Exec, Alters;
    forall db: Database | Look(db, k) == Some(l)
      ensures Exec(srv, Alters(k, ops), db) == Ok(Put(db, k, Some(Run(srv, ops, l).value)))
    {
      ExecAlters(srv, k, ops, db);
    }
  }

  ghost predicate After(db: Database, names: seq<string>, target: map<string, Option<Live>>, done: Database) {
    forall k :: Look(done, k) == if k in names && k in target then target[k] else Look(db, k)
  }

  lemma {:induction false} ExecPhase(srv: Server, names: seq<string>, stmts: map<string, seq<Stmt>>,
                                     source: map<string, Option<Live>>, target: map<string, Option<Live>>, db: Database)
    requires Distinct(names) && stmts.Keys == source.Keys == target.Keys
    requires forall k :: k in stmts ==> Turns(srv, stmts[k], k, source[k], target[k])
    requires forall k :: k in names && k in stmts ==> Look(db, k) == source[k]
    ensures var r := Exec(srv, Concat(names, stmts), db); r.Ok? && After(db, names, target, r.value)
  {
    if names == [] {
      assert Exec(srv, Concat(names, stmts), db) == Ok(db);
    } else {
      var (k, rest) := (names[0], names[1..]);
      Uncons(names);
      assert Concat(names, stmts) == At(stmts, k) + Concat(rest, stmts);
      assert Exec(srv, [], db) == Ok(db);
      ExecConcat(srv, At(stmts, k), Concat(rest, stmts), db);
      hide Exec, Concat, Distinct, Elements, Put, Look;
      if k in stmts {
        assert Turns(srv, stmts[k], k, source[k], target[k]);
        var next := Put(db, k, target[k]);
        assert Exec(srv, stmts[k], db) == Ok(next);
        PutLook(db, k, target[k]);
        hide Turns;
        ExecPhase(srv, rest, stmts, source, target, next);
      } else {
        hide Turns;
        ExecPhase(srv, rest, stmts, source, target, db);
      }
    }
  }

  // ----------------------------------------------------------- what a plan reaches

  /** The part of a database a plan is about: its tables as snapshots, narrowed to some names. */
  function Snapshots(db: Database, scope: set<string>): Schema {
    map k | k in db && k in scope :: db[k].table
  }

  ghost predicate Sound(db: Database) {
    forall k :: k in db ==> WellFormed(db[k])
  }

  /** What BuildSnapshot guarantees of a schema: declared columns, and the sorting key where no primary key is given. */
  ghost predicate Buildable(cur: Schema) {
    forall k :: k in cur ==> Declared(cur[k]) && DefaultsPrimaryKey(cur[k])
  }

  predicate DefaultsPrimaryKey(t: Table) {
    t.primaryKey != "" || t.sortingKey == ""
  }

  ghost predicate Reached(srv: Server, norm: Normalizer, db: Database, scope: set<string>, cur: Schema, ch: Choices,
                          done: Database)
    requires AreChoices(Snapshots(db, scope), cur, ch)
  {
    forall k :: Look(done, k) == Becomes(srv, norm, db, scope, cur, ch, k)
  }

  ghost function Becomes(srv: Server, norm: Normalizer, db: Database, scope: set<string>, cur: Schema, ch: Choices,
      k: string)
    : Option<Live>
    requires AreChoices(Snapshots(db, scope), cur, ch)
  {
    if k in ch.layouts then Altered(srv, norm, db[k], cur[k], ch.layouts[k])
    else if k in cur then Some(Created(srv, cur[k], ch.orders[k]))
    else if k in db && k in scope then None
    else Look(db, k)
  }

  ghost function Altered(srv: Server, norm: Normalizer, l: Live, cur: Table, y: Layout): Option<Live>
    requires y.before.Keys == cur.columns.Keys
  {
    match Run(srv, TableOps(l.table, cur, norm, y), l)
    case Err(_) => None
    case Ok(done) => Some(done)
  }

  ghost function Sources(db: Database, keys: set<string>): map<string, Option<Live>> {
    map k | k in keys :: Look(db, k)
  }

  ghost function Targets(srv: Server, norm: Normalizer, db: Database, scope: set<string>, cur: Schema, ch: Choices,
                         keys: set<string>): map<string, Option<Live>>
    requires AreChoices(Snapshots(db, scope), cur, ch)
  {
    map k | k in keys :: Becomes(srv, norm, db, scope, cur, ch, k)
  }

  lemma DropsTurn(srv: Server, norm: Normalizer, db: Database, scope: set<string>, cur: Schema, ch: Choices)
    requires AreChoices(Snapshots(db, scope), cur, ch)
    ensures var drops := DroppedTables(Snapshots(db, scope), cur);
      forall k :: k in drops ==> Turns(srv, drops[k], k, Look(db, k), Becomes(srv, norm, db, scope, cur, ch, k))
  {
    hide Turns, IsLayout, IsDeclarationOrder;
    var drops := DroppedTables(Snapshots(db, scope), cur);
    forall k | k in drops ensures Turns(srv, drops[k], k, Look(db, k), Becomes(srv, norm, db, scope, cur, ch, k)) {
      DropTurns(srv, k, db[k]);
    }
  }

  lemma CreationsTurn(srv: Server, norm: Normalizer, db: Database, scope: set<string>, cur: Schema, ch: Choices)
    requires AreChoices(Snapshots(db, scope), cur, ch) && cur.Keys <= scope
    ensures var creations := CreatedTables(cur, ch.orders);
      forall k :: k in creations ==> Turns(srv, creations[k], k, Look(db, k), Becomes(srv, norm, db, scope, cur, ch, k))
  {
    hide Turns, IsLayout, IsDeclarationOrder, Created;
    var creations := CreatedTables(cur, ch.orders);
    forall k | k in creations
      ensures Turns(srv, creations[k], k, Look(db, k), Becomes(srv, norm, db, scope, cur, ch, k))
    {
      CreateTurns(srv, k, cur[k], ch.orders[k]);
    }
  }

  lemma AlterationsTurn(srv: Server, norm: Normalizer, db: Database, scope: set<string>, cur: Schema, ch: Choices)
    requires AreChoices(Snapshots(db, scope), cur, ch) && Sound(db) && Buildable(cur)
    ensures var alters := AlteredTables(Snapshots(db, scope), cur, norm, ch.layouts);
      forall k :: k in alters ==> Turns(srv, alters[k], k, Look(db, k), Becomes(srv, norm, db, scope, cur, ch, k))
  {
    hide Turns, IsLayout, IsDeclarationOrder, Run, TableOps, Alters, Outcome, Named;
    var alters := AlteredTables(Snapshots(db, scope), cur, norm, ch.layouts);
    forall k | k in alters ensures Turns(srv, alters[k], k, Look(db, k), Becomes(srv, norm, db, scope, cur, ch, k)) {
      PlanOutcome(srv, norm, db[k], cur[k], ch.layouts[k]);
      AlterTurns(srv, k, TableOps(db[k].table, cur[k], norm, ch.layouts[k]), db[k]);
    }
  }

  /** The tables in keys have become what the plan makes them, the others have not moved. */
  ghost predicate Moved(srv: Server, norm: Normalizer, db: Database, scope: set<string>, cur: Schema, ch: Choices,
                        keys: set<string>, from: Database, to: Database)
    requires AreChoices(Snapshots(db, scope), cur, ch)
  {
    forall k :: Look(to, k) == if k in keys then Becomes(srv, norm, db, scope, cur, ch, k) else Look(from, k)
  }

  lemma PhaseMoves(srv: Server, norm: Normalizer, db: Database, scope: set<string>, cur: Schema, ch: Choices,
                   names: set<string>, stmts: map<string, seq<Stmt>>, from: Database)
    requires AreChoices(Snapshots(db, scope), cur, ch) && stmts.Keys <= names
    requires forall k :: k in stmts ==>
               Turns(srv, stmts[k], k, Look(db, k), Becomes(srv, norm, db, scope, cur, ch, k))
    requires forall k :: k in stmts ==> Look(from, k) == Look(db, k)
    ensures var r := Exec(srv, Concat(InOrder(names), stmts), from);
      r.Ok? && Moved(srv, norm, db, scope, cur, ch, stmts.Keys, from, r.value)
  {
    InOrderDistinct(names);
    hide Exec, Concat, InOrder, Sorted, Elements, Distinct, Turns, AreChoices, Becomes, Look;
    ExecPhase(srv, InOrder(names), stmts, Sources(db, stmts.Keys),
              Targets(srv, norm, db, scope, cur, ch, stmts.Keys), from);
  }

  lemma MovedThrice(srv: Server, norm: Normalizer, db: Database, scope: set<string>, cur: Schema, ch: Choices,
                    db1: Database, db2: Database, db3: Database)
    requires AreChoices(Snapshots(db, scope), cur, ch) && cur.Keys <= scope
    requires Moved(srv, norm, db, scope, cur, ch, DroppedTables(Snapshots(db, scope), cur).Keys, db, db1)
    requires Moved(srv, norm, db, scope, cur, ch, ch.orders.Keys, db1, db2)
    requires Moved(srv, norm, db, scope, cur, ch, ch.layouts.Keys, db2, db3)
    ensures Reached(srv, norm, db, scope, cur, ch, db3)
  {
    hide IsLayout, IsDeclarationOrder, Altered, Created;
    forall k ensures Look(db3, k) == Becomes(srv, norm, db, scope, cur, ch, k) {
      UnmovedStays(srv, norm, db, scope, cur, ch, k);
      hide Becomes, Look, AreChoices, DroppedTables;
    }
  }

  /** A table in none of the three groups is one the plan leaves as it is. */
  lemma UnmovedStays(srv: Server, norm: Normalizer, db: Database, scope: set<string>, cur: Schema, ch: Choices,
      k: string)
    requires AreChoices(Snapshots(db, scope), cur, ch)
    ensures k !in DroppedTables(Snapshots(db, scope), cur) && k !in ch.orders && k !in ch.layouts ==>
              Becomes(srv, norm, db, scope, cur, ch, k) == Look(db, k)
  {
    hide IsLayout, IsDeclarationOrder, Altered, Created;
  }

  /** No statement of a whole plan fails, and every table becomes what its own part of the plan makes it. */
  lemma PlanReaches(srv: Server, norm: Normalizer, db: Database, scope: set<string>, cur: Schema, ch: Choices)
    requires AreChoices(Snapshots(db, scope), cur, ch) && Sound(db) && Buildable(cur) && cur.Keys <= scope
    ensures var r := Exec(srv, DiffStatements(Snapshots(db, scope), cur, norm, ch), db);
      r.Ok? && Reached(srv, norm, db, scope, cur, ch, r.value)
  {
    var prev := Snapshots(db, scope);
    PlanFits(db, scope, cur, norm, ch);
    var (drops, creations, alters) := (DroppedTables(prev, cur), CreatedTables(cur, ch.orders),
                                       AlteredTables(prev, cur, norm, ch.layouts));
    hide Exec, Concat, InOrder, AreChoices, Sound, Buildable, DroppedTables, CreatedTables, AlteredTables, Turns,
         Becomes, Look, Reached;
    DropsTurn(srv, norm, db, scope, cur, ch);
    PhaseMoves(srv, norm, db, scope, cur, ch, prev.Keys, drops, db);
    var db1 := Exec(srv, Concat(InOrder(prev.Keys), drops), db).value;
    CreationsTurn(srv, norm, db, scope, cur, ch);
    PhaseMoves(srv, norm, db, scope, cur, ch, cur.Keys, creations, db1);
    var db2 := Exec(srv, Concat(InOrder(cur.Keys), creations), db1).value;
    AlterationsTurn(srv, norm, db, scope, cur, ch);
    PhaseMoves(srv, norm, db, scope, cur, ch, cur.Keys, alters, db2);
    var db3 := Exec(srv, Concat(InOrder(cur.Keys), alters), db2).value;
    MovedThrice(srv, norm, db, scope, cur, ch, db1, db2, db3);
    hide Moved;
    ExecConcat(srv, Concat(InOrder(prev.Keys), drops), Concat(InOrder(cur.Keys), creations), db);
    ExecConcat(srv, Concat(InOrder(prev.Keys), drops) + Concat(InOrder(cur.Keys), creations),
               Concat(InOrder(cur.Keys), alters), db);
  }

  lemma PlanFits(db: Database, scope: set<string>, cur: Schema, norm: Normalizer, ch: Choices)
    requires AreChoices(Snapshots(db, scope), cur, ch)
    ensures var prev := Snapshots(db, scope);
      && DroppedTables(prev, cur).Keys <= prev.Keys
      && DroppedTables(prev, cur).Keys !! ch.orders.Keys !! ch.layouts.Keys
      && ch.orders.Keys <= cur.Keys && FitLayouts(prev, cur, ch.layouts) && ch.layouts.Keys <= cur.Keys
      && CreatedTables(cur, ch.orders).Keys == ch.orders.Keys
      && AlteredTables(prev, cur, norm, ch.layouts).Keys == ch.layouts.Keys
  {
    hide IsLayout, IsDeclarationOrder, TableOps, Alters;
  }

  // ------------------------------------------------------------------ created tables

  lemma CreatedShape(srv: Server, decl: Table, order: seq<string>)
    requires Named(decl) && IsDeclarationOrder(decl, order)
    ensures WellFormed(Created(srv, decl, order))
  {
    hide Less, Precedes;
    PrecedesIsDistinct(decl, order);
    assert Created(srv, decl, order).table.columns.Keys == decl.columns.Keys;
  }

  lemma CreatedColumns(srv: Server, norm: Normalizer, decl: Table, order: seq<string>)
    requires Faithful(srv, norm)
    ensures QuietColumns(norm, decl, Created(srv, decl, order).table)
  {
    hide NothingLeft, ColumnRefusals, Faithful, AsDeclared, Stored;
    var t := Created(srv, decl, order).table;
    forall n | n in decl.columns ensures NothingLeft(t.columns[n], decl.columns[n], norm) {
      StoredSettles(srv, decl.columns[n], srv.keyFlags(decl, n), norm);
    }
  }

  lemma CreatedTypes(srv: Server, norm: Normalizer, decl: Table, order: seq<string>, k: string)
    requires Faithful(srv, norm)
    ensures var m := TypeRefusals(k, Created(srv, decl, order).table, decl); forall n :: n in m ==> m[n] == []
  {
    var t := Created(srv, decl, order).table;
    hide NothingLeft, ColumnRefusals, Stored, Faithful, AsDeclared;
    forall n | n in decl.columns ensures ColumnRefusals(k, t.columns[n], decl.columns[n]) == [] {
      StoredSettles(srv, decl.columns[n], srv.keyFlags(decl, n), norm);
    }
  }

  lemma CreatedRefusals(srv: Server, norm: Normalizer, decl: Table, order: seq<string>, k: string)
    requires Faithful(srv, norm) && Declared(decl) && IsDeclarationOrder(decl, order)
    ensures TableRefusals(k, Created(srv, decl, order).table, decl) == [] <==> DefaultsPrimaryKey(decl)
  {
    var t := Created(srv, decl, order).table;
    CreatedTypes(srv, norm, decl, order, k);
    hide Concat, InOrder, Stored, ColumnRefusals, IsDeclarationOrder, WellFormed, QuietColumns, Faithful, Declared,
         KeyText;
    ConcatNothing(InOrder(decl.columns.Keys), TypeRefusals(k, t, decl));
    ConcatNothing(InOrder(t.columns.Keys), KeptColumns(k, t, decl));
  }

  /** Every column is there clause by clause, in the declaration's order, and so is the rest of the table. */
  ghost predicate CreatedAs(srv: Server, l: Live, decl: Table, order: seq<string>) {
    && l.order == order && l.table.columns.Keys == decl.columns.Keys
    && (forall n :: n in decl.columns ==> MadeAs(srv, l.table.columns[n], decl.columns[n]))
    && l.table.engine == decl.engine && l.table.params == decl.params && l.table.sampleBy == decl.sampleBy
    && l.table.sortingKey == decl.sortingKey && l.table.partitionKey == decl.partitionKey
    && l.table.primaryKey == (if decl.primaryKey == "" then decl.sortingKey else decl.primaryKey)
    && l.table.ttl == (if decl.ttl == "" then "" else srv.echoTTL(decl.ttl))
    && l.table.settings.Keys == decl.settings.Keys
    && forall k :: k in decl.settings ==> l.table.settings[k] == srv.echoSetting(k, decl.settings[k])
  }

  lemma CreatedClauses(srv: Server, decl: Table, order: seq<string>)
    ensures CreatedAs(srv, Created(srv, decl, order), decl, order)
  {
    var t := Created(srv, decl, order).table;
    forall n | n in decl.columns ensures MadeAs(srv, t.columns[n], decl.columns[n]) {
      StoredIsMade(srv, decl.columns[n], srv.keyFlags(decl, n));
    }
  }

  /** A created table has nothing left to state, and is refused nothing exactly when its primary key was filled in. */
  lemma CreatedSettles(srv: Server, norm: Normalizer, decl: Table, order: seq<string>)
    requires Faithful(srv, norm) && Declared(decl) && IsDeclarationOrder(decl, order)
    ensures WellFormed(Created(srv, decl, order)) && CreatedAs(srv, Created(srv, decl, order), decl, order)
    ensures forall z :: IsLayout(decl, z) ==> TableOps(Created(srv, decl, order).table, decl, norm, z) == []
    ensures forall k :: TableRefusals(k, Created(srv, decl, order).table, decl) == [] <==> DefaultsPrimaryKey(decl)
  {
    var t := Created(srv, decl, order).table;
    CreatedTail(srv, norm, decl, t);
    CreatedShape(srv, decl, order);
    CreatedClauses(srv, decl, order);
    hide CreatedAs;
    hide Concat, InOrder, TailOps, Removals, Additions, Restatements, Drops, IsColumnBefore, QuietColumns, Created,
         WellFormed, Faithful, Declared, IsDeclarationOrder, DefaultsPrimaryKey, TableRefusals;
    CreatedColumns(srv, norm, decl, order);
    forall z | IsLayout(decl, z) ensures TableOps(t, decl, norm, z) == [] {
      QuietRemovals(norm, decl, t, InOrder(decl.columns.Keys));
      QuietAdditions(norm, decl, t, z, InOrder(t.columns.Keys));
    }
    forall k ensures TableRefusals(k, t, decl) == [] <==> DefaultsPrimaryKey(decl) {
      CreatedRefusals(srv, norm, decl, order, k);
    }
  }

  lemma CreatedTail(srv: Server, norm: Normalizer, decl: Table, t: Table)
    requires Faithful(srv, norm) && t.settings == map k | k in decl.settings :: srv.echoSetting(k, decl.settings[k])
    requires t.ttl == if decl.ttl == "" then "" else srv.echoTTL(decl.ttl)
    ensures TailOps(t, decl) == []
  {
    QuietTail(srv, norm, decl.(ttl := ""), decl, t);
  }

  // --------------------------------------------------------------------- convergence

  /** A table that a plan of its own declaration has nothing to say to, and whose refusals are the given ones. */
  ghost predicate SettledTable(norm: Normalizer, k: string, l: Live, cur: Table, refusals: seq<Refusal>) {
    && WellFormed(l) && TableRefusals(k, l.table, cur) == refusals
    && forall z :: IsLayout(cur, z) ==> TableOps(l.table, cur, norm, z) == []
  }

  lemma BecomesSettled(srv: Server, norm: Normalizer, db: Database, scope: set<string>, cur: Schema, ch: Choices,
      k: string)
    requires AreChoices(Snapshots(db, scope), cur, ch) && Sound(db) && Buildable(cur) && Faithful(srv, norm) && k in cur
    ensures var l := Becomes(srv, norm, db, scope, cur, ch, k);
      l.Some? && SettledTable(norm, k, l.value, cur[k], At(RefusedTables(Snapshots(db, scope), cur), k))
  {
    hide WellFormed, TableRefusals, TableOps, Faithful, Run, Created, ReachesDeclaration, IsLayout, IsDeclarationOrder;
    if k in ch.layouts {
      PlanConverges(srv, norm, db[k], cur[k], ch.layouts[k]);
    } else {
      CreatedSettles(srv, norm, cur[k], ch.orders[k]);
    }
  }

  ghost predicate SettledDatabase(norm: Normalizer, scope: set<string>, cur: Schema, refused: map<string, seq<Refusal>>,
                                  db: Database)
  {
    && (forall k :: k in cur ==> k in db && SettledTable(norm, k, db[k], cur[k], At(refused, k)))
    && (forall k :: k in db && k in scope ==> k in cur)
  }

  lemma ReachedIsSettled(srv: Server, norm: Normalizer, db: Database, scope: set<string>, cur: Schema, ch: Choices,
                         done: Database)
    requires AreChoices(Snapshots(db, scope), cur, ch) && Sound(db) && Buildable(cur) && Faithful(srv, norm)
    requires Reached(srv, norm, db, scope, cur, ch, done)
    ensures SettledDatabase(norm, scope, cur, RefusedTables(Snapshots(db, scope), cur), done)
  {
    hide SettledTable, TableRefusals, RefusedTables, Sound, Buildable, Faithful, IsLayout, IsDeclarationOrder,
         Altered, Created;
    forall k | k in cur
      ensures k in done && SettledTable(norm, k, done[k], cur[k], At(RefusedTables(Snapshots(db, scope), cur), k))
    {
      assert Look(done, k) == Becomes(srv, norm, db, scope, cur, ch, k);
      BecomesSettled(srv, norm, db, scope, cur, ch, k);
    }
    forall k | k in done && k in scope ensures k in cur {
      assert Look(done, k) == Becomes(srv, norm, db, scope, cur, ch, k);
    }
  }

  /** A settled database gets an empty plan. */
  lemma SettledPlanIsEmpty(norm: Normalizer, scope: set<string>, prev: Schema, cur: Schema, db: Database, ch: Choices)
    requires SettledDatabase(norm, scope, cur, RefusedTables(prev, cur), db) && cur.Keys <= scope
    requires AreChoices(Snapshots(db, scope), cur, ch)
    ensures DiffStatements(Snapshots(db, scope), cur, norm, ch) == []
  {
    hide Concat, InOrder, Sorted, Elements, SettledDatabase, DroppedTables, CreatedTables, AlteredTables, Snapshots,
         IsLayout, IsDeclarationOrder;
    var now := Snapshots(db, scope);
    AltersNothing(norm, scope, prev, cur, db, ch);
    NothingMissing(norm, scope, prev, cur, db, ch);
    ConcatNothing(InOrder(now.Keys), DroppedTables(now, cur));
    ConcatNothing(InOrder(cur.Keys), CreatedTables(cur, ch.orders));
    ConcatNothing(InOrder(cur.Keys), AlteredTables(now, cur, norm, ch.layouts));
  }

  lemma NothingMissing(norm: Normalizer, scope: set<string>, prev: Schema, cur: Schema, db: Database, ch: Choices)
    requires SettledDatabase(norm, scope, cur, RefusedTables(prev, cur), db) && cur.Keys <= scope
    requires AreChoices(Snapshots(db, scope), cur, ch)
    ensures var m := DroppedTables(Snapshots(db, scope), cur); forall k :: k in m ==> m[k] == []
    ensures var m := CreatedTables(cur, ch.orders); forall k :: k in m ==> m[k] == []
  {
    hide SettledTable, RefusedTables, IsLayout, IsDeclarationOrder;
    assert Snapshots(db, scope).Keys == cur.Keys;
  }

  /** And it is refused what settled it was refused. */
  lemma SettledRefusals(norm: Normalizer, scope: set<string>, prev: Schema, cur: Schema, db: Database)
    requires SettledDatabase(norm, scope, cur, RefusedTables(prev, cur), db) && cur.Keys <= scope
    ensures DiffRefusals(Snapshots(db, scope), cur) == DiffRefusals(prev, cur)
  {
    var now := Snapshots(db, scope);
    var names := InOrder(cur.Keys);
    InOrderDistinct(cur.Keys);
    hide Concat, InOrder, Sorted, Elements, Distinct, TableRefusals, WellFormed, TableOps, IsLayout;
    forall i | 0 <= i < |names|
      ensures At(RefusedTables(now, cur), names[i]) == At(RefusedTables(prev, cur), names[i])
    {
      var k := names[i];
      assert k in cur && SettledTable(norm, k, db[k], cur[k], At(RefusedTables(prev, cur), k));
    }
    ConcatSame(names, RefusedTables(now, cur), RefusedTables(prev, cur));
  }

  lemma AltersNothing(norm: Normalizer, scope: set<string>, prev: Schema, cur: Schema, db: Database, ch: Choices)
    requires SettledDatabase(norm, scope, cur, RefusedTables(prev, cur), db)
    requires AreChoices(Snapshots(db, scope), cur, ch)
    ensures var m := AlteredTables(Snapshots(db, scope), cur, norm, ch.layouts); forall k :: k in m ==> m[k] == []
  {
    hide TableRefusals, WellFormed, TableOps, IsLayout, IsDeclarationOrder, Alters;
    forall k | k in ch.layouts ensures TableOps(db[k].table, cur[k], norm, ch.layouts[k]) == [] {
      assert SettledTable(norm, k, db[k], cur[k], At(RefusedTables(prev, cur), k));
    }
    AltersNone("");
    forall k | k in ch.layouts ensures Alters(k, []) == [] {
      AltersNone(k);
    }
  }

  /** The plan runs, touches only the tables in scope, and leaves an empty plan and the same refusals. */
  ghost predicate DatabaseSettles(srv: Server, norm: Normalizer, db: Database, scope: set<string>, cur: Schema,
      ch: Choices)
    requires AreChoices(Snapshots(db, scope), cur, ch)
  {
    var r := Exec(srv, DiffStatements(Snapshots(db, scope), cur, norm, ch), db);
    && r.Ok?
    && (forall k :: k !in scope ==> Look(r.value, k) == Look(db, k))
    && (forall next :: AreChoices(Snapshots(r.value, scope), cur, next) ==>
          DiffStatements(Snapshots(r.value, scope), cur, norm, next) == [])
    && DiffRefusals(Snapshots(r.value, scope), cur) == DiffRefusals(Snapshots(db, scope), cur)
  }

  lemma OutOfScopeStays(srv: Server, norm: Normalizer, db: Database, scope: set<string>, cur: Schema, ch: Choices,
      k: string)
    requires AreChoices(Snapshots(db, scope), cur, ch) && cur.Keys <= scope && k !in scope
    ensures Becomes(srv, norm, db, scope, cur, ch, k) == Look(db, k)
  {
    hide IsLayout, IsDeclarationOrder, Altered, Created;
  }

  /** From any database, running the whole plan settles it. */
  lemma DatabaseConverges(srv: Server, norm: Normalizer, db: Database, scope: set<string>, cur: Schema, ch: Choices)
    requires AreChoices(Snapshots(db, scope), cur, ch) && Sound(db) && Buildable(cur) && cur.Keys <= scope
    requires Faithful(srv, norm)
    ensures DatabaseSettles(srv, norm, db, scope, cur, ch)
  {
    hide Exec, DiffStatements, AreChoices, Sound, Buildable, Faithful, SettledDatabase, DiffRefusals, RefusedTables,
         Becomes;
    PlanReaches(srv, norm, db, scope, cur, ch);
    var prev := Snapshots(db, scope);
    var done := Exec(srv, DiffStatements(prev, cur, norm, ch), db).value;
    ReachedIsSettled(srv, norm, db, scope, cur, ch, done);
    SettledRefusals(norm, scope, prev, cur, done);
    forall k | k !in scope ensures Look(done, k) == Look(db, k) {
      OutOfScopeStays(srv, norm, db, scope, cur, ch, k);
    }
    forall next | AreChoices(Snapshots(done, scope), cur, next)
      ensures DiffStatements(Snapshots(done, scope), cur, norm, next) == []
    {
      SettledPlanIsEmpty(norm, scope, prev, cur, done, next);
    }
  }

  // ---------------------------------------------------------------- stopping midway

  /** What a statement of a plan may be. */
  ghost predicate Lawful(prev: Schema, cur: Schema, stmt: Stmt) {
    match stmt
    case DropTable(k) => k !in cur
    case CreateTable(k, decl, order) => k in cur && k !in prev && decl == cur[k] && IsDeclarationOrder(cur[k], order)
    case Alter(k, _) => k in cur && k in prev
  }

  ghost predicate AllLawful(prev: Schema, cur: Schema, stmts: seq<Stmt>) {
    forall i :: 0 <= i < |stmts| ==> Lawful(prev, cur, stmts[i])
  }

  lemma LawfulConcat(prev: Schema, cur: Schema, a: seq<Stmt>, b: seq<Stmt>)
    requires AllLawful(prev, cur, a) && AllLawful(prev, cur, b)
    ensures AllLawful(prev, cur, a + b)
  {
  }

  lemma {:induction false} LawfulPhase(prev: Schema, cur: Schema, names: seq<string>, m: map<string, seq<Stmt>>)
    requires forall k :: k in m ==> AllLawful(prev, cur, m[k])
    ensures AllLawful(prev, cur, Concat(names, m))
  {
    hide Lawful;
    if names != [] {
      LawfulPhase(prev, cur, names[1..], m);
    }
  }

  lemma {:induction false} LawfulAlters(prev: Schema, cur: Schema, k: string, ops: seq<Op>)
    requires k in cur && k in prev
    ensures AllLawful(prev, cur, Alters(k, ops))
  {
    if ops != [] {
      LawfulAlters(prev, cur, k, ops[1..]);
    }
  }

  lemma LawfulAlterations(prev: Schema, cur: Schema, norm: Normalizer, layouts: map<string, Layout>)
    requires FitLayouts(prev, cur, layouts)
    ensures var m := AlteredTables(prev, cur, norm, layouts); forall k :: k in m ==> AllLawful(prev, cur, m[k])
  {
    hide IsLayout, TableOps, Alters, AllLawful;
    forall k | k in layouts ensures AllLawful(prev, cur, AlteredTables(prev, cur, norm, layouts)[k]) {
      LawfulAlters(prev, cur, k, TableOps(prev[k], cur[k], norm, layouts[k]));
    }
  }

  lemma LawfulCreations(prev: Schema, cur: Schema, ch: Choices)
    requires AreChoices(prev, cur, ch)
    ensures var m := DroppedTables(prev, cur); forall k :: k in m ==> AllLawful(prev, cur, m[k])
    ensures var m := CreatedTables(cur, ch.orders); forall k :: k in m ==> AllLawful(prev, cur, m[k])
  {
    hide IsLayout, IsDeclarationOrder;
  }

  lemma PlanIsLawful(prev: Schema, cur: Schema, norm: Normalizer, ch: Choices)
    requires AreChoices(prev, cur, ch)
    ensures AllLawful(prev, cur, DiffStatements(prev, cur, norm, ch))
  {
    hide Concat, InOrder, IsLayout, IsDeclarationOrder, AlteredTables, CreatedTables, DroppedTables, AllLawful;
    var (drops, creations, alters) := (DroppedTables(prev, cur), CreatedTables(cur, ch.orders),
                                       AlteredTables(prev, cur, norm, ch.layouts));
    LawfulCreations(prev, cur, ch);
    LawfulAlterations(prev, cur, norm, ch.layouts);
    LawfulPhase(prev, cur, InOrder(prev.Keys), drops);
    LawfulPhase(prev, cur, InOrder(cur.Keys), creations);
    LawfulPhase(prev, cur, InOrder(cur.Keys), alters);
    LawfulConcat(prev, cur, Concat(InOrder(prev.Keys), drops), Concat(InOrder(cur.Keys), creations));
    LawfulConcat(prev, cur, Concat(InOrder(prev.Keys), drops) + Concat(InOrder(cur.Keys), creations),
                 Concat(InOrder(cur.Keys), alters));
  }

  /** Declared tables that were there keep their keys; declared tables that were not are refused nothing. */
  ghost predicate KeysKept(prev: Schema, cur: Schema, db: Database) {
    && Sound(db)
    && forall k :: k in cur ==>
         && (k in prev ==> k in db && SameKeys(prev[k], db[k].table))
         && (k !in prev && k in db ==> TableRefusals(k, db[k].table, cur[k]) == [])
  }

  lemma StatementKeepsKeys(srv: Server, norm: Normalizer, prev: Schema, cur: Schema, stmt: Stmt, db: Database)
    requires KeysKept(prev, cur, db) && Lawful(prev, cur, stmt) && Buildable(cur) && Faithful(srv, norm)
    ensures ApplyStmt(srv, stmt, db).Ok? ==> KeysKept(prev, cur, ApplyStmt(srv, stmt, db).value)
  {
    hide ApplyOp, Created, WellFormed, TableRefusals, SameKeys, Faithful, Declared, DefaultsPrimaryKey;
    match stmt
    case DropTable(k) =>
    case CreateTable(k, decl, order) => CreatedSettles(srv, norm, decl, order);
    case Alter(k, op) =>
      if k in db && ApplyOp(srv, op, db[k]).Ok? {
        ApplyKeepsShape(srv, op, db[k]);
        ApplyKeepsKeys(srv, op, db[k]);
        SameKeysTwice(prev[k], db[k].table, ApplyOp(srv, op, db[k]).value.table);
      }
  }

  lemma {:induction false} RunKeepsAllKeys(srv: Server, norm: Normalizer, prev: Schema, cur: Schema, stmts: seq<Stmt>,
                                           db: Database)
    requires KeysKept(prev, cur, db) && AllLawful(prev, cur, stmts) && Buildable(cur) && Faithful(srv, norm)
    ensures Exec(srv, stmts, db).Ok? ==> KeysKept(prev, cur, Exec(srv, stmts, db).value)
  {
    hide ApplyStmt, KeysKept, Lawful, Buildable, Faithful;
    if stmts != [] && ApplyStmt(srv, stmts[0], db).Ok? {
      StatementKeepsKeys(srv, norm, prev, cur, stmts[0], db);
      RunKeepsAllKeys(srv, norm, prev, cur, stmts[1..], ApplyStmt(srv, stmts[0], db).value);
    }
  }

  lemma KeptRefusals(prev: Schema, cur: Schema, db: Database, scope: set<string>)
    requires KeysKept(prev, cur, db) && cur.Keys <= scope
    ensures DiffRefusals(Snapshots(db, scope), cur) == DiffRefusals(prev, cur)
  {
    var now := Snapshots(db, scope);
    var names := InOrder(cur.Keys);
    InOrderDistinct(cur.Keys);
    hide Concat, InOrder, Sorted, Elements, Distinct, TableRefusals, WellFormed, SameKeys;
    forall i | 0 <= i < |names|
      ensures At(RefusedTables(now, cur), names[i]) == At(RefusedTables(prev, cur), names[i])
    {
      var k := names[i];
      assert k in cur;
      if k in prev {
        SameKeysSameRefusals(k, prev[k], db[k].table, cur[k]);
      }
    }
    ConcatSame(names, RefusedTables(now, cur), RefusedTables(prev, cur));
  }

  lemma KeysKeptAtFirst(db: Database, scope: set<string>, cur: Schema)
    requires Sound(db) && cur.Keys <= scope
    ensures KeysKept(Snapshots(db, scope), cur, db)
  {
    hide WellFormed, TableRefusals;
    forall k | k in db ensures SameKeys(db[k].table, db[k].table) {
    }
  }

  lemma LawfulPrefix(prev: Schema, cur: Schema, stmts: seq<Stmt>, n: nat)
    requires AllLawful(prev, cur, stmts) && n <= |stmts|
    ensures AllLawful(prev, cur, stmts[..n])
  {
    hide Lawful;
  }

  /** Part of a list of lawful statements that all run runs too, and changes nothing that is refused. */
  lemma PartialRun(srv: Server, norm: Normalizer, db: Database, scope: set<string>, cur: Schema, stmts: seq<Stmt>,
      n: nat)
    requires Sound(db) && Buildable(cur) && cur.Keys <= scope && Faithful(srv, norm)
    requires AllLawful(Snapshots(db, scope), cur, stmts) && Exec(srv, stmts, db).Ok? && n <= |stmts|
    ensures var mid := Exec(srv, stmts[..n], db);
      && mid.Ok? && Sound(mid.value)
      && DiffRefusals(Snapshots(mid.value, scope), cur) == DiffRefusals(Snapshots(db, scope), cur)
  {
    hide Exec, Buildable, Faithful, DiffRefusals, AllLawful, Snapshots;
    var prev := Snapshots(db, scope);
    assert stmts == stmts[..n] + stmts[n..];
    ExecConcat(srv, stmts[..n], stmts[n..], db);
    LawfulPrefix(prev, cur, stmts, n);
    KeysKeptAtFirst(db, scope, cur);
    RunKeepsAllKeys(srv, norm, prev, cur, stmts[..n], db);
    KeptRefusals(prev, cur, Exec(srv, stmts[..n], db).value, scope);
  }

  /** Any part of a plan runs; what was refused is refused still; and a fresh plan from there settles the database. */
  lemma PartialPlanConverges(srv: Server, norm: Normalizer, db: Database, scope: set<string>, cur: Schema,
      ch: Choices, n: nat)
    requires AreChoices(Snapshots(db, scope), cur, ch) && Sound(db) && Buildable(cur) && cur.Keys <= scope
    requires Faithful(srv, norm) && n <= |DiffStatements(Snapshots(db, scope), cur, norm, ch)|
    ensures var mid := Exec(srv, DiffStatements(Snapshots(db, scope), cur, norm, ch)[..n], db);
      && mid.Ok? && Sound(mid.value)
      && DiffRefusals(Snapshots(mid.value, scope), cur) == DiffRefusals(Snapshots(db, scope), cur)
      && forall again :: AreChoices(Snapshots(mid.value, scope), cur, again) ==>
           DatabaseSettles(srv, norm, mid.value, scope, cur, again)
  {
    hide Exec, DiffStatements, AreChoices, Buildable, Faithful, DiffRefusals, DatabaseSettles, AllLawful, Reached,
         Sound, Snapshots;
    var stmts := DiffStatements(Snapshots(db, scope), cur, norm, ch);
    PlanReaches(srv, norm, db, scope, cur, ch);
    PlanIsLawful(Snapshots(db, scope), cur, norm, ch);
    PartialRun(srv, norm, db, scope, cur, stmts, n);
    var mid := Exec(srv, stmts[..n], db).value;
    forall again | AreChoices(Snapshots(mid, scope), cur, again)
      ensures DatabaseSettles(srv, norm, mid, scope, cur, again)
    {
      DatabaseConverges(srv, norm, mid, scope, cur, again);
    }
  }

  // ------------------------------------------------------------------------- pushing

  /** Applied says how many statements landed; `failed` is the one that did not. */
  datatype PushResult = PushResult(statements: seq<Stmt>, refusals: seq<Refusal>, notices: seq<Notice>,
                                   appliedCount: nat, applied: bool, failed: Option<Stmt>)
  datatype PushError = MixedDatabases | EngineRequired | IntrospectFailed | ErrRefused | ExecFailed

  /** `homes` is the database each table is declared in, empty for the connection's own. */
  datatype PushOptions = PushOptions(homes: map<string, string>, database: string, allowRefused: bool, dryRun: bool)

  /** No two tables are declared in different databases, nor one in another than the option names. */
  ghost predicate OneDatabase(homes: map<string, string>, override: string) {
    && (forall a, b :: a in homes && b in homes ==> homes[a] == homes[b])
    && (override != "" ==> forall a :: a in homes ==> homes[a] == "" || homes[a] == override)
  }

  /** The database a push is about: the one the schema declares, or the option, or the connection's own. */
  method PushDatabase(homes: map<string, string>, override: string) returns (r: Result<string, PushError>)
    ensures r.Ok? <==> OneDatabase(homes, override)
    ensures r.Err? ==> r.error == MixedDatabases
    ensures r.Ok? ==> forall a :: a in homes ==> r.value == if homes[a] != "" then homes[a] else override
    ensures r.Ok? && homes == map[] ==> r.value == override
  {
    var seen: set<string> := {};
    var left := homes.Keys;
    while left != {}
      invariant left <= homes.Keys && seen == set k | k in homes && k !in left :: homes[k]
    {
      var k :| k in left;
      seen := seen + {homes[k]};
      left := left - {k};
    }
    assert forall a :: a in homes ==> homes[a] in seen;
    if exists a, b :: a in seen && b in seen && a != b {
      return Err(MixedDatabases);
    }
    if seen == {} {
      return Ok(override);
    }
    var home :| home in seen;
    if home != "" {
      if override != "" && override != home {
        return Err(MixedDatabases);
      }
      return Ok(home);
    }
    return Ok(override);
  }

  predicate EnginesNamed(cur: Schema) {
    forall k :: k in cur ==> cur[k].engine != ""
  }

  /** The live tables the schema declares; a table it never names is left alone. */
  method OwnedBy(live: Schema, cur: Schema) returns (owned: Schema)
    ensures owned == map k | k in live && k in cur :: live[k]
  {
    owned := map[];
    var left := live.Keys;
    while left != {}
      invariant left <= live.Keys
      invariant owned == map k | k in live && k !in left && k in cur :: live[k]
    {
      var k :| k in left;
      if k in cur {
        owned := owned[k := live[k]];
      }
      left := left - {k};
    }
  }

  method Introspect(db: Database) returns (live: Schema)
    ensures live == map k | k in db :: db[k].table
  {
    live := map k | k in db :: db[k].table;
  }

  class Connection {
    var db: Database
    const srv: Server

    constructor (srv: Server, db: Database)
      ensures this.srv == srv && this.db == db
    {
      this.srv, this.db := srv, db;
    }

    /** One statement. It takes effect on its own; an outage or a fault leaves the database as it was. */
    method Execute(stmt: Stmt, up: bool) returns (ok: bool)
      modifies this
      ensures ok <==> up && ApplyStmt(srv, stmt, old(db)).Ok?
      ensures db == if ok then ApplyStmt(srv, stmt, old(db)).value else old(db)
    {
      var r := ApplyStmt(srv, stmt, db);
      ok := up && r.Ok?;
      if ok {
        db := r.value;
      }
    }

    /** The checks before anything is read, the introspection, and the plan. */
    method Prepare(cur: Schema, norm: Normalizer, options: PushOptions, readable: bool)
      returns (r: Result<PushResult, PushError>, ghost ch: Choices)
      ensures r == Err(MixedDatabases) <==> !OneDatabase(options.homes, options.database)
      ensures r == Err(EngineRequired) <==> OneDatabase(options.homes, options.database) && !EnginesNamed(cur)
      ensures r == Err(IntrospectFailed) <==>
        OneDatabase(options.homes, options.database) && EnginesNamed(cur) && !readable
      ensures r.Err? ==> r.error in {MixedDatabases, EngineRequired, IntrospectFailed}
      ensures r.Ok? ==> var live := Snapshots(db, cur.Keys);
        && AreChoices(live, cur, ch) && r.value.statements == DiffStatements(live, cur, norm, ch)
        && r.value.refusals == DiffRefusals(live, cur) && r.value.notices == DiffNotices(live, cur, norm)
        && r.value.appliedCount == 0 && !r.value.applied && r.value.failed.None?
    {
      ch := Choices(map[], map[]);
      var database := PushDatabase(options.homes, options.database);
      if database.Err? {
        return Err(database.error), ch;
      }
      hide OneDatabase;
      if exists k :: k in cur && cur[k].engine == "" {
        return Err(EngineRequired), ch;
      }
      if !readable {
        return Err(IntrospectFailed), ch;
      }
      var live := Introspect(db);
      var owned := OwnedBy(live, cur);
      assert owned == Snapshots(db, cur.Keys);
      hide DiffStatements, DiffRefusals, DiffNotices, AreChoices, Snapshots;
      var plan := new Plan();
      ch := plan.Diff(owned, cur, norm);
      return Ok(PushResult(plan.statements, plan.refusals, plan.notices, 0, false, None)), ch;
    }

    /**
      Pushes a schema, with `up` saying which statements the server is there for. Exactly
      the first appliedCount statements of the plan have run, whatever the outcome.
     */
    method Push(cur: Schema, norm: Normalizer, options: PushOptions, readable: bool, up: nat -> bool)
      returns (res: Option<PushResult>, err: Option<PushError>, ghost ch: Choices)
      modifies this
      ensures err == Some(MixedDatabases) <==> !OneDatabase(options.homes, options.database)
      ensures err == Some(EngineRequired) <==> OneDatabase(options.homes, options.database) && !EnginesNamed(cur)
      ensures err == Some(IntrospectFailed) <==>
        OneDatabase(options.homes, options.database) && EnginesNamed(cur) && !readable
      ensures res.None? <==> err in {Some(MixedDatabases), Some(EngineRequired), Some(IntrospectFailed)}
      ensures res.None? ==> db == old(db)
      ensures res.Some? ==>
        && AreChoices(Snapshots(old(db), cur.Keys), cur, ch)
        && res.value.statements == DiffStatements(Snapshots(old(db), cur.Keys), cur, norm, ch)
        && res.value.refusals == DiffRefusals(Snapshots(old(db), cur.Keys), cur)
        && res.value.notices == DiffNotices(Snapshots(old(db), cur.Keys), cur, norm)
        && res.value.appliedCount <= |res.value.statements|
        && Exec(srv, res.value.statements[..res.value.appliedCount], old(db)) == Ok(db)
        && (options.dryRun || (res.value.refusals != [] && !options.allowRefused) ==> res.value.appliedCount == 0)
        && (res.value.failed.Some? <==> err == Some(ExecFailed))
        && (res.value.failed.Some? ==>
              && res.value.appliedCount < |res.value.statements|
              && res.value.failed.value == res.value.statements[res.value.appliedCount]
              && !(up(res.value.appliedCount) && ApplyStmt(srv, res.value.failed.value, db).Ok?))
        && (res.value.failed.None? && !options.dryRun && (res.value.refusals == [] || options.allowRefused) ==>
              res.value.appliedCount == |res.value.statements|)
        && (err.None? || err == Some(ErrRefused) ==> (err.None? <==> res.value.refusals == []))
        && (res.value.applied ==> res.value.appliedCount == |res.value.statements|)
    {
      hide DiffStatements, DiffRefusals, DiffNotices, AreChoices, OneDatabase, EnginesNamed, Snapshots;
      var prepared;
      prepared, ch := Prepare(cur, norm, options, readable);
      if prepared.Err? {
        return None, Some(prepared.error), ch;
      }
      var result := prepared.value;
      var stmts, refusals := result.statements, result.refusals;
      var refused := if refusals == [] then None else Some(ErrRefused);
      assert stmts[..0] == [];
      ExecNone(srv, db);
      hide Exec, ApplyStmt;
      if refusals != [] && !options.allowRefused {
        return Some(result), refused, ch;
      }
      if options.dryRun || stmts == [] {
        return Some(result), refused, ch;
      }
      var n, ok := RunAll(stmts, up);
      result := result.(appliedCount := n);
      if !ok {
        return Some(result.(failed := Some(stmts[n]))), Some(ExecFailed), ch;
      }
      return Some(result.(applied := true)), refused, ch;
    }

    /** Statement by statement, up to the first that fails. */
    method RunAll(stmts: seq<Stmt>, up: nat -> bool) returns (n: nat, ok: bool)
      modifies this
      ensures n <= |stmts| && (ok <==> n == |stmts|) && Exec(srv, stmts[..n], old(db)) == Ok(db)
      ensures !ok ==> !(up(n) && ApplyStmt(srv, stmts[n], db).Ok?)
    {
      ghost var start := db;
      assert stmts[..0] == [];
      for i := 0 to |stmts|
        invariant Exec(srv, stmts[..i], start) == Ok(db)
      {
        ExecSnoc(srv, stmts, i, start);
        hide Exec, ApplyStmt;
        var done := Execute(stmts[i], up(i));
        if !done {
          return i, false;
        }
      }
      return |stmts|, true;
    }
  }

  lemma ExecNone(srv: Server, db: Database)
    ensures Exec(srv, [], db) == Ok(db)
  {
  }

  lemma ExecSnoc(srv: Server, stmts: seq<Stmt>, i: nat, db: Database)
    requires i < |stmts| && Exec(srv, stmts[..i], db).Ok?
    ensures Exec(srv, stmts[..i + 1], db) == ApplyStmt(srv, stmts[i], Exec(srv, stmts[..i], db).value)
  {
    hide Exec, ApplyStmt;
    assert stmts[..i + 1] == stmts[..i] + [stmts[i]];
    ExecConcat(srv, stmts[..i], [stmts[i]], db);
    ExecOne(srv, stmts[i], Exec(srv, stmts[..i], db).value);
  }
}
