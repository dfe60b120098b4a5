# drops: a verified model of the ClickHouse dialect and the mirror

drops is a Go toolkit that builds SQL, scopes it to a tenant, plans schema changes, pages
through results, applies migrations and mirrors a PostgreSQL stream into other stores. This
project models the parts where a mistake is silent, and proves what they promise. `dafny verify
dfyconfig.toml` checks all of it.

| module | what it models |
|---|---|
| `JoinChain`, `JoinPlacement`, `JoinPlacementSafety`, `JoinPlacementLimits` | where a SELECT writes each table's automatic predicates, against the same join chain over tables filtered beforehand |
| `Resolution`, `ResolutionTheorems`, `ResolutionFaults`, `ResolutionChanges` | the walk that resolves every statement inside a statement for one request, its cycle guard, what makes it fail and what makes it change anything |
| `SelectSharing` | the SELECT builder on the heap: slices over shared arrays, the shallow copy per execution, copy-on-write |
| `TypeChange`, `TypeVerdicts`, `SchemaStatements`, `SchemaDiff`, `SchemaPlan`, `SchemaConvergence`, `SchemaTheorems`, `SchemaDeterminism`, `SchemaSilence`, `SchemaPush` | column type changes, the schema diff, what running its statements reaches, when its output is determined, and what an empty plan is worth |
| `Keyset`, `KeysetPages` | the keyset predicate under three-valued logic, and walking pages with it |
| `MigrationGraph`, `MigrationReach`, `TreeMigrator`, `MatViews` | the migration DAG, its sort and closures, and the commands that move the applied set; refresh order of materialized views |
| `NewestWins`, `MirrorVersions`, `MirrorDelivery` | change versions and the newest-wins view, the pump over a replication stream |
| `MirrorOutbox`, `MirrorArrival` | the pump over the outbox: claims that expire, what is marked, what comes back |
| `MirrorSchedule`, `MirrorPoison`, `MirrorOrder` | which events ever arrive on a schedule of steps, what one that does not decode holds up, and the order a sink sees |
| `MirrorClickHouse`, `MirrorTypes`, `MirrorTable`, `MirrorSource`, `MirrorQdrant` | the derived table and its sink, which source values its columns hold, what a FINAL read shows of the rows written and how it compares with the source table, the Qdrant sink |
| `Lexing`, `Conjunct`, `Quoting`, `Settings`, `QueryTags` | what predicate text reads as, which conjuncts are bracketed, quoting, SETTINGS lists, the tag comment |
| `TenantInsert` | stamping, widening and aligning the rows of a scoped INSERT |
| `Wrappers`, `Strings`, `StringOrder`, `Numerals`, `ThreeValued` | options and results, text helpers, `sort.Strings`, decimal text, SQL's truth values |

The server is modelled only as far as a property needs it: a join evaluator, an `ApplyOp` for
ALTER statements, an ORDER BY, a store that keeps the highest version per sorting key. What it may do
differently from one run to the next (which match ANY keeps, how ties are ordered on each page, whether MODIFY COLUMN preserves or resets an
omitted clause, how it spells a type back, which statement fails) is a parameter, and the theorems
hold for every value of it.

## What turned out not to hold

Each of these has a lemma that exhibits it on input the code can receive, and a lemma saying exactly
when the code is right.

- A FULL JOIN over an earlier inner-joined scoped table is accepted and returns rows the table's
  filter hides (`AcceptedLeak`); placement is faithful for all data iff no guarded table's
  predicates land in a FULL JOIN's ON and no ASOF-joined table has any (`PlacementExact`,
  `AcceptedIsSafeIff`).
- A filter cycle can be reported where, without the guard, a later filter would have refused
  (`CycleReported`, `RefusedWithoutGuard`), because the chain holds relations and not which of a
  relation's two lists was entered. Every expansion that never ends is reported, and a reported one
  never ends iff the walk that tells the two lists apart meets a cycle too (`CycleIffEndless`).
- A retried step of the pump over a replication stream fetches the next batch, and its cumulative
  acknowledgement passes the one that failed (`LoseTransaction`); every run is safe iff one failed
  attempt ends the session (`SafeIffOneAttempt`). The outbox has no such problem (`OutboxPump.Run`).
- An outbox event can wait for ever behind events of somebody else that nobody handles: behind one,
  drained one at a time, iff the next step does not come before the visibility timeout
  (`StarvedBehindForeign`). In general it arrives iff fewer are pending before it than the steps made
  while one claim is held drain (`ArrivesIff`), which with the defaults is 15000 (`DefaultReach`).
- An event of ours that does not decode strands what it is drained with (`StrandedWithPoison`); with
  the next step made before the timeout every other event arrives, and otherwise only those in
  earlier batches (`PoisonHoldsItsBatch`).
- After a failed step the retry delivers later events of a key before the older ones, and a sink that
  does not compare versions ends on the stale one (`StaleRun`). The last write of a key is its newest
  iff the step that marked the newest drained every event of the key that was pending
  (`LastWriteIsNewestIff`).
- An UPDATE that changes the key column leaves the row of the old key in the mirror
  (`KeyChangeLeavesRow`); a FINAL read gives the source table iff every key a row was moved away from
  has been written again (`MirrorIsSourceIff`), and does so at every moment iff no UPDATE changes the
  key (`AlwaysAgreesIff`).
- What a sorting key shows depends on delivery order when two different rows have its top version
  (`TieShowsDelivery`), and on the rows delivered alone iff there are none (`RowsExact`). Whole
  transactions delivered in their own order never have that problem (`TransactionsDecide`).
- A tombstone carries its key only into a table sorted by that one column: under another ORDER BY it
  leaves the deleted row in view (`ReorderedTombstoneMisses`), and a key that is not the number its
  row holds retires the row that holds the default (`UnspelledTombstoneHidesAnother`). The table
  shows what the changes ask for iff it is sorted by the key column alone and every key spells its
  row's value in a way of its own (`TableIsFaithfulIff`).
- Two spellings of one number share a Qdrant point (`PointsCollide`); keys share one iff they are
  equal or that (`PointIDCollides`).
- A conjunct that ends inside a literal or a comment can make a neighbour part of itself in a clause
  that still reads as well formed (`UnclosedIsDishonest`); it keeps to itself beside every clean
  predicate iff it ends outside both (`HonestIffClosed`).
- The statements of a plan are not a function of the two sides when two columns tie for the place
  before one that is added (`TiedDeclaration`), although the diff is documented as deterministic;
  they are iff no two do (`PlanDetermined`).
- A DEFAULT or codec of a key column that is not the declared one gets no statement, no refusal and
  no notice (`KeyCodecPassedOver`), although the diff says differences it cannot make come back as
  refusals; a plan that says nothing means the table is as declared iff there is none
  (`SilenceIsAgreement`).
- A codec that the server gives back in another spelling is restated by every plan
  (`RespelledCodecReturns`), because codecs are compared as text; a column settles iff the codec
  comes back as it was written (`CodecSettlesIff`).
- A column TTL is not among what a snapshot reads, so a declared one reaches a live column only when
  something else of it is restated; `ColumnTTLIff` says exactly when it is left as declared.
- The mirror's type mapping is documented as lossless or wider, and a date in 1899 has no value in the
  column it is mapped to (`EarlyDateIsLost`); a column holds every value of its source except dates and
  instants outside 1900 to 2299 and numerics that are not a number or wider than a Decimal
  (`MirrorHoldsIff`).
- A SETTINGS value may hold a double quote or a backtick, which the check does not track: for a
  reader of all three quotes it can hide the next setting (`QuoteHidesSetting`) or add one
  (`QuoteAddsSetting`). A checked value is safe beside every checked list iff it is one value to
  that reader too (`SafeBesideIff`).
- A statement whose last line ends in a `#` comment takes the query tags with it (`HashTakesTags`),
  because only `--` is looked for; the tags are seen iff the statement ends outside literals and
  block comments and its last line opens no `#` comment or holds `--` as well (`CommentIsSeen`).
- The comment at `clickhouse/tenant.go:103-115` says later joins are not considered when a filter is
  placed; the loop at `clickhouse/select.go:429-433` considers them, and the model follows the loop.

## Model

| member | source | states |
|---|---|---|
| `JoinPlacement.FilterPlacement` | clickhouse/select.go:425-435 | a LEFT, FULL or ANY joined table's predicates go in its own ON; any other table's in the ON of the first later join that preserves its right side, or in WHERE when there is none |
| `JoinPlacement.PlaceFilters` | clickhouse/select.go:443-464 | each ON and the WHERE get exactly the guards whose slot they are, defaults and request-time ones apart, in clause order |
| `JoinPlacementSafety.PlacementPreservesMeaning` | clickhouse/select.go:397-464 | on a safe shape of any length the rendered statement returns, for every data and every ANY choice, exactly the rows of the same chain over tables filtered by their own guards |
| `JoinPlacementLimits.PlacementExact` | clickhouse/select.go:397-464 | a shape is safe if and only if rendered and reference agree for all rows, guards, conditions and choices of that shape |
| `JoinPlacementLimits.FullLeaks` | clickhouse/select.go:425-435 | a guarded table whose predicates land in a FULL JOIN's ON: the statement returns the row its guard hides |
| `JoinPlacementLimits.AsofLoses` | clickhouse/select.go:425-435 | a guarded ASOF-joined table: a visible match is lost behind a hidden one the join chose |
| `JoinPlacementLimits.SafetyIsShape` | clickhouse/select.go:397-464 | safety depends on the join kinds and on which tables carry guards, not on data |
| `JoinPlacementLimits.CheckJoinPlacement` | clickhouse/select.go:354-385 | refuses if and only if some FULL JOIN's joined table or FROM carries request-time filters or some ASOF JOIN's joined table does, with the first such join deciding |
| `JoinPlacementLimits.AcceptedIsSafeIff` | clickhouse/select.go:354-385 | for accepted statements with request-time filters only, safe if and only if no guard of a table joined earlier is sent to a FULL JOIN's ON |
| `JoinPlacementLimits.AcceptedLeak` | clickhouse/select.go:372-375 | INNER then FULL with only the middle table scoped is accepted, and rows exist on which it differs from the reference |
| `JoinPlacementLimits.RefusedThoughSafe` | clickhouse/select.go:372-375 | RIGHT then FULL with FROM scoped is refused although it would be faithful |
| `ResolutionTheorems.OnlyAdds` | clickhouse/resolve.go:88-132 | resolving changes nothing of what the caller wrote, and "unchanged" means the very same expression |
| `ResolutionTheorems.GuardIsSound` | clickhouse/tablescope.go:442-461 | an answer other than a cycle is the unguarded walk's answer at every depth of at least the number of relations; a reported cycle is a statement the unguarded walk fails on at every depth |
| `ResolutionTheorems.CycleIffEndless` | clickhouse/tablescope.go:451-461 | every expansion that never ends is reported as a cycle; a reported one never ends if and only if the walk that keeps a relation's two filter lists apart meets a cycle too |
| `ResolutionTheorems.EndlessIff` | clickhouse/tablescope.go:442-461 | for every schema and statement, the unguarded expansion never ends if and only if that walk meets a cycle |
| `ResolutionTheorems.CycleReported` | clickhouse/tablescope.go:316-346 | a schema in which the cycle is reported |
| `ResolutionTheorems.RefusedWithoutGuard` | clickhouse/tablescope.go:316-346 | and in which the unguarded walk answers with a refusal instead, at every depth from two on |
| `ResolutionTheorems.ResolvedIsScoped` | clickhouse/select.go:503-617 | a resolution that succeeds leaves the caller's statement with every reachable scoped SELECT, in operands, CTEs, ONs and filters' own predicates, carrying for every table it names every context filter's predicate in order and the default filters, restated for the instance; no foreign statement in it refused |
| `ResolutionTheorems.EveryFilterAnswers` | clickhouse/tablescope.go:316-346 | a table's filters are all asked: a refusal if and only if one refuses, and otherwise one predicate for every filter that adds one, in their order |
| `ResolutionFaults.ResolvesIff` | clickhouse/select.go:503-617 | resolution succeeds if and only if nothing it reaches is deferred, refuses, is a refused join or comes back to itself, and fails with such a fault |
| `ResolutionChanges.ChangesIff` | clickhouse/resolve.go:88-132 | the caller's own expression comes back unchanged if and only if no filter of anything it reaches adds a predicate |
| `ResolutionTheorems.ResolveTwice` | clickhouse/select.go:503-617 | a resolved expression resolves to itself and is reported unchanged |
| `SelectSharing.ResolveExprs` | clickhouse/resolve.go:116-132 | the copy-on-write loop: no list when nothing changed, otherwise a new array holding the walked list; the caller's array is not written to and the first error wins |
| `SelectSharing.ResolveOns` | clickhouse/select.go:558-574 | the same for the joins' ONs, with the array itself telling whether it was copied; kinds and tables stay |
| `SelectSharing.SelectBuilder.ResolveCtx` | clickhouse/select.go:503-617 | writes to nothing that existed; the receiver when nothing changed and a new builder otherwise, which reads as the resolved statement and shares only the lists nothing was resolved in |
| `SelectSharing.RequestsAreIndependent` | clickhouse/select.go:503-617 | of two requests over one builder each succeeds if and only if nothing it reaches is at fault, and then has the caller's statement with its own predicates on every reachable SELECT; the builder is as it was |
| `SelectSharing.ResolveThenBuild` | clickhouse/select.go:161-190 | appending to the builder afterwards, in place in arrays the copy shares, does not move what the request renders |
| `Resolution.EnterDecreases` | clickhouse/tablescope.go:451-461 | entering a relation shrinks the relations not yet on the chain, which is why resolution ends |
| `TypeChange.Normalize` | clickhouse/snapshot.go:492-505 | the loop computes the normal form |
| `TypeChange.NormalizeTwice` | clickhouse/snapshot.go:492-505 | normalising is idempotent |
| `TypeVerdicts.BlankIsDropped` | clickhouse/snapshot.go:492-505 | a tab, line end or blank outside single quotes makes no difference; every other character stays, and inside them all do |
| `TypeChange.SpellingIsNoChange` | clickhouse/typechange.go:150-156 | a live type spelled differently gets the same answer |
| `TypeChange.UnchangedIsSettled` | clickhouse/typechange.go:150-176 | unchanged if and only if the live type is the declared one up to spelling and a LowCardinality wrapper; refused if and only if it is not and the column is in a key |
| `TypeChange.ChangeSettles` | clickhouse/typechange.go:150-230 | setting the type any non-refused change asks for makes every later classification unchanged, however the server spells it |
| `TypeChange.WidensTransitive` | clickhouse/typechange.go:289-301 | widening is transitive |
| `TypeChange.WidensIrreflexive` | clickhouse/typechange.go:289-301 | no type widens to itself |
| `TypeChange.WidensKeepsValues` | clickhouse/typechange.go:289-345 | every value of an integer or decimal type is a value of the type it widens to |
| `TypeChange.SafeChangeKeepsValues` | clickhouse/typechange.go:178-230 | a change not reported as a risk to values keeps every live value, NULL and LowCardinality included |
| `TypeVerdicts.VerdictExact` | clickhouse/typechange.go:150-230 | for every base type, Nullable and LowCardinality on either side: which verdict, cause, target and risk the change gets; a widening if and only if the base is the same or widens and nothing else stands in the way |
| `TypeVerdicts.NumbersWiden` | clickhouse/typechange.go:289-333 | a number type widens to another if and only if it is of the same family with more bits |
| `TypeVerdicts.DecimalsWiden` | clickhouse/typechange.go:289-345 | a decimal to another if and only if the scale is the same and the precision greater, and never to a number or back |
| `SchemaDiff.ColumnBefore` | clickhouse/diff.go:650-664 | some declared column with the greatest position below, or none when there is none, whatever order the map is ranged in |
| `SchemaDiff.ColumnsByPosition` | clickhouse/diff.go:668-679 | all columns, ascending by position with name breaking ties |
| `SchemaPlan.Plan.DiffShape` | clickhouse/diff.go:312-382 | appends one refusal for the engine or its parameters and one per differing key, a notice for the sampling key, and nothing when they agree |
| `SchemaDiff.EqualFoldExact` | clickhouse/diff.go:312-330 | engine names are the same if and only if they differ in the case of letters alone |
| `SchemaDiff.EngineIsWritten` | clickhouse/diff.go:690-695 | a refusal names an engine as it is written, its parameters in brackets |
| `SchemaPlan.Plan.DiffColumnRemovals` | clickhouse/diff.go:389-403 | appends the REMOVE statements of a non-key column's dropped DEFAULT and codec |
| `SchemaPlan.Plan.DiffColumn` | clickhouse/diff.go:406-467 | appends the notices, and the refusal, or the restatement when type, default or codec moved, and then the comment |
| `SchemaPlan.Plan.DiffColumnComment` | clickhouse/diff.go:479-486 | appends a COMMENT exactly when the comments differ |
| `SchemaPlan.Plan.DiffDropColumn` | clickhouse/diff.go:490-502 | appends a drop, or a refusal for a key column |
| `SchemaPlan.Plan.DiffTail` | clickhouse/diff.go:505-542 | appends the TTL statement when one side has none, a notice when both have one and they read differently, and each declared setting that differs, in key order |
| `SchemaPlan.Plan.DiffTable` | clickhouse/diff.go:270-307 | appends the phases in their order, for some column order and predecessors that obey the ordering rules |
| `SchemaPlan.Plan.Diff` | clickhouse/diff.go:233-266 | appends drops, creations and alterations of a whole schema in key order, the refusals and the notices |
| `SchemaConvergence.ColumnSettles` | clickhouse/diff.go:389-486 | under either reading of MODIFY COLUMN one pass leaves a column with nothing to state; a plain non-key one ends at the declared type, default, codec and comment |
| `SchemaConvergence.StoredSettles` | clickhouse/diff.go:634-646 | a newly added or created column is the declared one clause by clause, TTL included, in the server's spelling; it has nothing left to state and is refused nothing |
| `SchemaConvergence.RestatedClauses` | clickhouse/diff.go:443-466 | a restated column has every clause the declaration says anything in, its TTL included; a TTL left out is kept or cleared as MODIFY COLUMN is read |
| `SchemaConvergence.ColumnTTLIff` | clickhouse/diff.go:406-467 | a plan leaves a live column with its declared TTL if and only if it had it, or it is restated and the declaration has one or omitting it clears it |
| `SchemaConvergence.RestatementRewrites` | clickhouse/diff.go:406-467 | running a column's statements changes that column as described and nothing else, and none of them fails |
| `SchemaConvergence.CodecSettlesIff` | clickhouse/diff.go:448-450 | a column at the server's spelling of its declared codec has nothing left to state if and only if that is the declared spelling |
| `SchemaConvergence.RespelledCodecReturns` | clickhouse/diff.go:448-450 | a codec that comes back with its level filled in is restated, and the restatement changes nothing |
| `SchemaTheorems.PlanOutcome` | clickhouse/diff.go:270-307 | from every live table no statement of the plan fails, every AFTER names a column present when it runs, and the table left is the one described column by column, an added one as declared clause by clause |
| `SchemaTheorems.BeforeIsEarlier` | clickhouse/diff.go:634-664 | the column an AFTER names is live or added by an earlier statement, ties or not |
| `SchemaTheorems.OutcomeIsQuiet` | clickhouse/diff.go:270-307 | the next diff of that table has no statement |
| `SchemaTheorems.SameKeysSameRefusals` | clickhouse/diff.go:312-502 | refusals are a function of the engine, the keys and the key columns' types, which no statement changes |
| `SchemaTheorems.PlanConverges` | clickhouse/diff.go:233-542 | running a table's plan converges: no fault, declared shape reached, next plan empty, same refusals |
| `SchemaTheorems.PrefixConverges` | clickhouse/push.go:181-203 | so does any prefix of it followed by a fresh plan |
| `SchemaTheorems.EndsInDeclarationOrder` | clickhouse/diff.go:634-679 | with distinct positions, declared columns end in declaration order if the surviving ones were in it |
| `SchemaDeterminism.PlanDetermined` | clickhouse/diff.go:174-176 | however the maps are ranged over, the statements for a table are a function of both sides if and only if no two columns tie for the place before a column to be added |
| `SchemaDeterminism.TiedDeclaration` | clickhouse/diff.go:650-664 | a declaration with two different plans |
| `SchemaSilence.SilenceIsAgreement` | clickhouse/diff.go:270-542 | a table as declared gets no statement, refusal or notice; one that gets none is as declared if and only if no key column's DEFAULT or codec differs |
| `SchemaSilence.KeyCodecPassedOver` | clickhouse/diff.go:389-441 | a key column with another codec than declared, of which the plan says nothing |
| `SchemaPush.CreatedSettles` | clickhouse/diff.go:565-621 | a created table has every declared column clause by clause, in position order, and the declared engine, keys, TTL and settings; its next plan is empty, and it is refused nothing if and only if its primary key was filled in from the sorting key |
| `SchemaPush.PlanReaches` | clickhouse/diff.go:233-266 | every statement of a whole plan runs, and each table becomes what its own part makes it |
| `SchemaPush.DatabaseConverges` | clickhouse/push.go:153-204 | from every database the plan settles it, touches nothing out of scope and leaves the refusals as they were |
| `SchemaPush.PartialPlanConverges` | clickhouse/push.go:181-203 | after any number of statements the refusals are unchanged and a fresh plan settles the database |
| `SchemaPush.OwnedBy` | clickhouse/push.go:293-307 | exactly the declared tables of the live side |
| `SchemaPush.PushDatabase` | clickhouse/push.go:238-264 | the one database the schema declares, or the option; refuses if and only if two tables or the option disagree |
| `SchemaPush.Connection.Push` | clickhouse/push.go:153-204 | exactly the first AppliedCount statements have run; which conditions run none, what failed and why, and when each error comes back |
| `Keyset.KeysetWhere` | clickhouse/cursor.go:419-446 | the loop builds the row-wise expansion, leaving out a key nothing can be past |
| `Keyset.StrictMeans` | clickhouse/cursor.go:505-531 | the strict term of a key is true exactly of cells past the cursor's in the order of that key, NULL placement independent of direction |
| `Keyset.EqMeans` | clickhouse/cursor.go:450-456 | the equality term is true exactly of the cursor's cell, NULL included |
| `Keyset.GuardExact` | clickhouse/cursor.go:390-538 | the predicate is true in three-valued logic exactly of rows strictly after the cursor, or before it paging back, in the order the same spec sorts by |
| `KeysetPages.Select.OrderByCursor` | clickhouse/cursor.go:335-340 | appends one term per key with its direction and NULLS clause |
| `KeysetPages.Select.AfterCursor` | clickhouse/cursor.go:346-363 | appends the forward predicate; a cursor that does not decode or fit leaves an error and a WHERE nothing satisfies |
| `KeysetPages.Select.BeforeCursor` | clickhouse/cursor.go:369-386 | likewise backward |
| `KeysetPages.WalkPages` | clickhouse/cursor.go:335-363 | a client paging through the builder, over a server that answers every query in any order its ORDER BY allows: rows in order, none twice, and every row of the table once when no two tie or the last key is unique |
| `KeysetPages.WalkExact` | clickhouse/cursor.go:335-446 | every such server and every positive page size returns each row exactly once if and only if no two rows tie on the keys |
| `KeysetPages.UniqueLastNoTies` | clickhouse/cursor.go:101-108 | a unique last key leaves no ties |
| `KeysetPages.CellsBeforeTotal` | clickhouse/cursor.go:390-402 | the order is total and strict on rows that differ in a key |
| `MigrationGraph.TopoSortSubset` | clickhouse/migrate.go:777-819 | a permutation with every in-subset parent before its child, repeated parents included; fails if and only if the induced subgraph has a cycle |
| `MigrationGraph.Kahn` | clickhouse/migrate.go:777-819 | the loop over in-degrees and the sorted ready list gives the specified order |
| `MigrationGraph.OrderSound` | clickhouse/migrate.go:777-819 | that order has no repeats, stays in the subset and puts parents first |
| `MigrationGraph.OrderExact` | clickhouse/migrate.go:777-819 | it covers the subset if and only if the subset is acyclic |
| `MigrationReach.AncestorsOf` | clickhouse/migrate.go:821-841 | exactly what the target reaches along parents, itself included; an error if and only if the target is unknown, or a reached parent is |
| `MigrationReach.DescendantsOf` | clickhouse/migrate.go:843-862 | exactly the registered migrations that reach the target in at least one step |
| `TreeMigrator.Migrator.Validate` | clickhouse/migrate.go:319-333 | accepts if and only if no parent is missing and there is no cycle, and says which |
| `TreeMigrator.Migrator.CheckTampering` | clickhouse/migrate.go:701-716 | reports exactly an applied, registered migration with SQL and a recorded checksum whose SQL has another checksum |
| `TreeMigrator.Migrator.ComputeHeads` | clickhouse/migrate.go:864-886 | the applied migrations with no applied child, sorted |
| `TreeMigrator.ApplyKeepsClosed` | clickhouse/migrate.go:374-440 | after every single migration of a topological order the applied set is closed under parents |
| `TreeMigrator.RollbackKeepsClosed` | clickhouse/migrate.go:443-550 | and after every single one rolled back in reverse |
| `TreeMigrator.Migrator.Up` | clickhouse/migrate.go:374-402 | on a validated, untampered graph succeeds if and only if every pending migration has an Up that works, and otherwise stops at one that has none or fails, with exactly those before it applied, parents first; every state on the way is ancestor-closed; what is recorded has its SQL's checksum |
| `TreeMigrator.Migrator.UpTo` | clickhouse/migrate.go:405-440 | likewise for the target's unapplied ancestors; which errors come before anything is applied |
| `TreeMigrator.Migrator.Checkout` | clickhouse/migrate.go:443-491 | succeeds if and only if everything outside the target's ancestors can be rolled back and every missing ancestor applied, leaving exactly the ancestors; how far it gets otherwise |
| `TreeMigrator.Migrator.Down` | clickhouse/migrate.go:494-516 | removes exactly the heads, if and only if each is registered with a Down that works; otherwise stops at one that is not, with exactly those after it gone |
| `TreeMigrator.Migrator.DownTo` | clickhouse/migrate.go:519-550 | likewise for exactly the applied strict descendants of the target |
| `MatViews.Collect` | clickhouse/matview.go:210-233 | each transitive dependent of the upstream once and nothing else |
| `MatViews.DownstreamOrder` | clickhouse/matview.go:210-290 | dependents only, each after those it reads; all of them if and only if they contain no cycle |
| `MirrorVersions.LiveVersion` | mirror/change.go:106-111 | in the live band for every int64 |
| `MirrorVersions.ClockVersion` | mirror/change.go:132-138 | in the clock band for every reading, before the epoch included |
| `MirrorVersions.SeedVersionAt` | mirror/change.go:161-170 | in the seed band for every reading |
| `MirrorVersions.VersionsKeepOrder` | mirror/change.go:106-170 | each mapping is monotone and gives two readings one version if and only if both are clamped to the same end of its band; every seed is below every clock below every live version |
| `MirrorVersions.LaterPassWins` | mirror/change.go:140-170 | a later reseed pass outranks an earlier one and loses to every clock and live version |
| `MirrorVersions.LSNVersionInBand` | pg/logical.go:73-76 | a position stays in the live band if and only if it fits 63 bits; beyond, the sum wraps |
| `MirrorVersions.Normalized` | mirror/change.go:205-213 | no change is left without a time or a version; a given one is kept, a missing time is the reading and a missing version that time in the clock band |
| `MirrorVersions.ViewIsHighest` | mirror/change.go:36-57 | of the changes of a key, one of its own is the newest and none is newer |
| `MirrorVersions.BandsDecide` | mirror/change.go:36-57 | a seed never shows for a key with a clock or live change, nor a clock for a sequenced one |
| `MirrorVersions.LatestTransactionShows` | mirror/logical.go:335-340 | the last change of the latest transaction that touches a key decides what is seen of it, a delete and re-insert inside one transaction included |
| `MirrorVersions.TransactionsDecide` | mirror/logical.go:335-340 | whole transactions in any order, repeated and re-batched, show what the set of transactions determines |
| `MirrorDelivery.Decode` | mirror/logical.go:289-345 | every message of a relation the mirror holds, in order, becomes the change it is: its operation, its key, the row it leaves, its commit; the first that cannot fails the transaction |
| `MirrorDelivery.KeyColumnExact` | mirror/logical.go:350-358 | a relation is keyed by its qualified entry where there is one and by the bare one otherwise, and left out if and only if there is neither |
| `MirrorDelivery.DecodedExact` | mirror/logical.go:289-345 | which messages become changes, and which one a transaction fails on |
| `MirrorDelivery.QualifiedIsMirrored` | mirror/logical.go:350-358 | a relation configured only as schema.table is mirrored |
| `MirrorDelivery.DecodedIsStamped` | mirror/logical.go:328-341 | every change is addressable and carries its transaction's commit version |
| `MirrorDelivery.DecodedStream` | mirror/logical.go:203-236 | what batches deliver is a stream of whole stamped transactions, a position naming one of them |
| `MirrorDelivery.SafeRunShows` | mirror/logical.go:148-285 | after any run with one attempt per session a sink shows, of every key, the last change of the latest transaction that touched it, once that is confirmed |
| `MirrorDelivery.Session.Fetch` | mirror/logical.go:203-285 | whole transactions off the front: enough to reach max or all there are, never one in part; the ack is the last one's commit |
| `MirrorDelivery.Session.Step` | mirror/pump.go:103-139 | acknowledged if and only if the batch decodes, every sink accepts it and the ack gets through; the batch leaves the buffer either way |
| `MirrorDelivery.Session.Run` | mirror/pump.go:147-175 | every run of the pump is a run of the state machine |
| `MirrorDelivery.StoppedStays` | mirror/pump.go:153-163 | once the attempts are spent nothing more is fetched, applied or acknowledged until the stream is reopened |
| `MirrorDelivery.SafeIffOneAttempt` | mirror/pump.go:147-175 | in every run no confirmed position passes an unapplied transaction, if and only if a failed step ends the session |
| `MirrorDelivery.OneAttemptKeeps` | mirror/logical.go:148-182 | with the stream reopened at the last ack, everything below the reader's position has been applied while the session runs |
| `MirrorDelivery.LoseTransaction` | mirror/pump.go:153-163 | with any other budget the pump itself confirms past a transaction no sink kept |
| `MirrorOutbox.DecodeEvents` | mirror/source.go:143-184 | foreign events are left out with their ids, ours become changes with the event id as version, position by position; the first that does not decode fails the fetch |
| `MirrorOutbox.OutboxPump.Fetch` | mirror/source.go:143-184 | claims the first claimable events up to the limit and puts them off by the visibility timeout, whatever comes of them |
| `MirrorOutbox.OutboxPump.Step` | mirror/pump.go:103-139 | marks exactly our events of the batch, and only if all decode, every sink takes them and the commit gets through; every marked event of ours is in every sink |
| `MirrorOutbox.OutboxPump.Run` | mirror/pump.go:147-175 | is a run of the steps and happenings recorded; however often steps are retried and whatever else happens to the table, no event leaves it and none of ours is marked before every sink has it |
| `MirrorOutbox.MarkedShows` | mirror/source.go:122-129 | once the latest event of a key is marked every sink's log shows it, repeats and disorder included |
| `MirrorArrival.ClaimedExactly` | pg/outbox.go:280-318 | an event is drained if and only if it is unpublished and available and fewer than the limit such are ahead of it |
| `MirrorArrival.SteppedExactly` | mirror/source.go:153-184 | a step marks an event if and only if it is ours, was drained and the batch passed; somebody else's never |
| `MirrorArrival.UnmarkedComesBack` | pg/outbox.go:262-273 | what was drained and not marked is claimable again after the visibility timeout, and drained then if and only if fewer than the limit are ahead of it |
| `MirrorSchedule.ArrivesIff` | mirror/pump.go:147-175 | on a schedule on which a claim is held for w steps, nothing failing and ours all decoding, an event of ours is marked sooner or later if and only if fewer foreign events stay pending before it than w drains take |
| `MirrorSchedule.ArrivesWhenBrisk` | mirror/pump.go:147-175 | on any schedule on which at least w steps fall within a claim, fewer than that hold nothing up |
| `MirrorSchedule.StarvesWhenSlow` | pg/outbox.go:280-318 | on any schedule on which a claim is over w steps later, that many hold the event up for ever |
| `MirrorSchedule.RegularSteps` | mirror/pump.go:165-170 | a step every gap: a claim is held for the timeout divided by the gap, rounded up |
| `MirrorSchedule.DefaultReach` | mirror/pump.go:41-49 | with the default batch, idle interval and visibility timeout the bound is 15000 |
| `MirrorSchedule.PumpOn` | mirror/pump.go:147-175 | the pump stepping at those times is that run |
| `MirrorSchedule.StarvedBehindForeign` | mirror/source.go:155-161 | an event behind one unhandled foreign event, drained one at a time, arrives if and only if steps are closer together than the visibility timeout |
| `MirrorPoison.PoisonHoldsItsBatch` | mirror/source.go:163-165 | one event of ours that does not decode: an event arrives if and only if it is drained in another batch, and in an earlier one where the claim is over by the next step |
| `MirrorPoison.StrandedWithPoison` | mirror/source.go:163-165 | an event behind it arrives if and only if they are drained one at a time, in steps closer together than the timeout |
| `MirrorOrder.LastWriteIsNewestIff` | mirror/qdrant.go:91-93 | over any run of the pump, once a key's events are all marked the last a sink was handed is the newest if and only if the step that marked the newest drained every pending event of the key |
| `MirrorOrder.StaleRun` | mirror/pump.go:119-127 | a run in which the sink refuses the older of two updates once, and ends on it |
| `MirrorOrder.PointIsLastWrite` | mirror/qdrant.go:107-152 | what Qdrant holds of a key is its last write |
| `MirrorClickHouse.DeriveClickHouse` | mirror/clickhouse.go:117-191 | the source's columns with mapped types and the two of the mirror, sorted by the one primary key or as asked; what each refusal means |
| `MirrorTypes.MapTypeExact` | mirror/clickhouse.go:219-261 | every column type the Postgres builder has is mapped to the type that mirrors it, Nullable when asked; smallserial has none |
| `MirrorTypes.SplitIgnoresBlanks` | mirror/clickhouse.go:264-271 | blanks around a type's name are not part of it |
| `MirrorTypes.MirrorHoldsIff` | mirror/clickhouse.go:200-261 | a mirrored column holds every value of its source column, NULL included, if and only if it is not a date or instant outside 1900 to 2299 or a numeric that is not a number or wider than any Decimal |
| `MirrorTypes.EarlyDateIsLost` | mirror/clickhouse.go:236-241 | the last day of 1899 |
| `MirrorTypes.DerivedKeyIsInteger` | mirror/clickhouse.go:413-426 | a derived key column takes keys as numbers if and only if its source column is of an integer type |
| `MirrorClickHouse.ClickHouseSink.Apply` | mirror/clickhouse.go:364-381 | appends the bound row of every change in order, or nothing |
| `NewestWins.NewestExact` | mirror/clickhouse.go:345-361 | keeping the highest version per sorting key gives a function of the set of writes if and only if no two different ones share the top version |
| `MirrorTable.RowsExact` | mirror/clickhouse.go:345-361 | for every interleaving and repetition what a sorting key shows depends only on the rows delivered, if and only if it is not contested |
| `MirrorTable.ReplayIsInert` | mirror/clickhouse.go:345-361 | writing rows again changes nothing a FINAL read shows where no sorting key is contested |
| `MirrorTable.TableIsFaithfulIff` | mirror/clickhouse.go:387-426 | a FINAL read without tombstones is what the changes ask for, for every delivery and every server default, if and only if ORDER BY is the key column alone and every key spells its row's value, no two alike |
| `MirrorTable.TombstoneMisses` | mirror/clickhouse.go:387-409 | a tombstone whose bound sorting key is another leaves the row in view |
| `MirrorTable.MirrorIsFaithful` | mirror/clickhouse.go:345-426 | a table in default order, fed changes that hold their own key, is faithful |
| `MirrorTable.DecodedOwnKey` | mirror/logical.go:289-345 | the replication stream decodes to such changes |
| `MirrorTable.MirrorShowsLatest` | mirror/clickhouse.go:345-426 | of every row such a table shows the last change of the latest transaction that touched it, and nothing of one it deletes, however transactions are repeated, re-ordered and re-batched |
| `MirrorSource.MirrorIsSourceIff` | mirror/logical.go:289-345 | after the whole log a FINAL read gives exactly the rows of the source table, if and only if every key an UPDATE moved a row away from has been written again |
| `MirrorSource.AlwaysAgreesIff` | mirror/logical.go:316-334 | it does so at every moment if and only if no UPDATE changes the key column |
| `MirrorSource.KeyChangeLeavesRow` | mirror/logical.go:316-334 | document 7 becomes 8, and the mirror shows both |
| `MirrorTable.ReorderedTombstoneMisses` | mirror/clickhouse.go:413-426 | sorted by two columns, a deleted row stays in view |
| `MirrorTable.UnspelledTombstoneHidesAnother` | mirror/clickhouse.go:413-426 | a key that is not its row's number: the tombstone hides the row holding the default instead |
| `MirrorTable.TieShowsDelivery` | mirror/logical.go:335-340 | two updates of one row at one version show whichever came last |
| `MirrorQdrant.QdrantSink.UpsertRun` | mirror/qdrant.go:128-152 | all points of the run as if upserted one by one, or none when a change or the client fails; no call when there is nothing to index |
| `MirrorQdrant.QdrantSink.DeleteRun` | mirror/qdrant.go:154-166 | all ids of the run as if deleted one by one, or none when a change or the client fails |
| `MirrorQdrant.QdrantSink.Apply` | mirror/qdrant.go:107-126 | maximal same-kind runs give the store that single application gives; on a failure, exactly the runs before the failing one |
| `MirrorQdrant.RedeliveryIsInert` | mirror/qdrant.go:101-126 | a batch applied in part, in whole or twice and then in whole leaves what applying it once leaves |
| `MirrorQdrant.PointIDCollides` | mirror/qdrant.go:177-182 | two keys share a point if and only if they are equal or spellings of one uint64 |
| `MirrorQdrant.PointsCollide` | mirror/qdrant.go:177-182 | "7" and "07" do |
| `Conjunct.EscapesConjunct` | clickhouse/conjunct.go:149-227 | the byte scan answers what reading the text as the server does answers: a comment, a semicolon, an open literal, too many marks or a top-level OR, unless a bracket closed too early first |
| `Conjunct.WriteAnd` | clickhouse/conjunct.go:49-66 | AND between the conjuncts, brackets on those that escape when there are several |
| `Conjunct.ConjunctsStayApart` | clickhouse/conjunct.go:49-66 | clean conjuncts: the clause as written is well formed, each begins at depth zero outside literals and comments, and where there are several no OR is left at depth zero |
| `Conjunct.HonestIffClosed` | clickhouse/conjunct.go:149-227 | a balanced conjunct keeps to itself beside every clean predicate if and only if it ends outside literals and comments |
| `Conjunct.UnclosedIsDishonest` | clickhouse/conjunct.go:181-188 | for an unclosed one, a clean predicate that begins inside it in a clause that reads as well formed |
| `Lexing.ReadDeeper` | clickhouse/conjunct.go:53-66 | bracketed text reads the same, deeper, with no OR at depth zero |
| `Quoting.QuotesAre` | clickhouse/engine.go:198-223 | the two replacements in turn escape each character exactly once |
| `Quoting.Skip` | clickhouse/conjunct.go:171-184 | the scan's loop comes to rest where specified |
| `Quoting.SkipsQuoted` | clickhouse/conjunct.go:159-192 | a quoted identifier or literal is skipped exactly to its own closing delimiter |
| `Quoting.QuotedIsOneToken` | clickhouse/engine.go:198-223 | to the server it is one token: no bracket, comment or OR in it counts |
| `Quoting.QuoteRoundTrip` | clickhouse/engine.go:198-223 | reading back what was quoted gives the text that was quoted |
| `Settings.ValidateSettingKey` | clickhouse/ident.go:80-94 | accepts exactly letters, digits and underscores not starting with a digit |
| `Settings.ValidateSettingValue` | clickhouse/ident.go:111-155 | accepts exactly a non-blank value that is one value as it was written: no comment, stray bracket or comma, open literal or bracket |
| `Settings.RawIsOneValue` | clickhouse/table.go:248-253 | the trimmed value that is checked and the raw one that is written are one value together or not at all |
| `Settings.ListRoundTrip` | clickhouse/diff.go:612-619 | validated settings joined by commas split back to the same pairs |
| `Settings.QuoteHidesSetting` | clickhouse/ident.go:111-155 | two values that pass the check and that a reader of all three quotes takes for one |
| `Settings.QuoteAddsSetting` | clickhouse/ident.go:111-155 | a value that passes the check and holds a separator for such a reader |
| `Settings.SafeBesideIff` | clickhouse/ident.go:111-155 | beside quote-free checked values every list with a checked value reads back to its pairs, unspoilt, for such a reader, if and only if the value is one value to it |
| `QueryTags.InsertTag` | querytag.go:223-237 | keeps the list sorted by key and sets that one key |
| `QueryTags.WithQueryTags` | querytag.go:177-197 | a sorted list whose map is the outer one with the named tags laid over it, the last of a key winning |
| `QueryTags.EncodeTag` | querytag.go:328-339 | the byte loop percent-encodes as specified |
| `QueryTags.EncodeRoundTrip` | querytag.go:328-353 | percent-decoding, section 2.1 of RFC 3986, gives the text back |
| `QueryTags.EncodedIsSafe` | querytag.go:328-353 | encoded text holds only the unreserved characters of section 2.3 of RFC 3986 and the percent sign |
| `QueryTags.EncodeKeepsPlain` | querytag.go:328-353 | text is left as it is if and only if all of it is unreserved, and grows otherwise |
| `QueryTags.AppendTagComment` | querytag.go:264-301 | the trimmed statement, a separator and the tags in a comment of their own |
| `QueryTags.CommentIsSeen` | querytag.go:264-317 | the server is outside literals and comments where the tags are written, if and only if the statement does not end inside a literal or block comment and its last line opens no `#` comment or also holds `--` |
| `QueryTags.HashTakesTags` | querytag.go:311-317 | after `SELECT 1 # note` they are not seen |
| `QueryTags.TagsReadAsComment` | querytag.go:264-301 | where they are seen, the whole text reads to the same depth as the statement and ends outside, so the tags are one comment |
| `QueryTags.TagsAreInert` | querytag.go:264-353 | no byte of the rendered tags can close the comment or open another |
| `QueryTags.TagsRoundTrip` | querytag.go:264-301 | the comment's text parses back to the tags, in order |
| `TenantInsert.AlignRow` | clickhouse/insert.go:153-183 | one value per listed column: of each name the last bindings, as many as it has slots, in turn, NULL when they run out |
| `TenantInsert.DistinctSlot` | clickhouse/insert.go:153-183 | with distinct names, the row's last binding of the name or NULL |
| `TenantInsert.RepeatedColumn` | clickhouse/insert.go:153-183 | with repeated names, NULL exactly where a row has run out of bindings |
| `TenantInsert.ColumnsOf` | clickhouse/insert.go:90-116 | each handle the row binds once, those of the first one's table first and in declared order |
| `TenantInsert.NamedOnceIff` | clickhouse/insert.go:90-116 | the list names each column once if and only if no name of the row is bound through two handles |
| `TenantInsert.RunHooks` | clickhouse/hooks.go:54-60 | the loop over the hooks and over what each binds adds each column once, its first binding |
| `TenantInsert.HookedColumns` | clickhouse/hooks.go:54-60 | every hooked column ends in the list once, and none overrides a listed one |
| `TenantInsert.HooksInTurn` | clickhouse/hooks.go:54-60 | what is added is each column's first binding, in the order the hooks bind |
| `TenantInsert.StampTenantColumn` | clickhouse/insert.go:577-611 | every row is stamped or already names the tenant; a missing tenant or any mismatching or incomparable binding refuses the batch |
| `TenantInsert.InsertBuilder.Row` | clickhouse/insert.go:35-41 | appends the row; the first that binds anything fixes the column list |
| `TenantInsert.ResolveRow` | clickhouse/resolve.go:153-177 | a copy in which every statement in a binding is what the walk made of it, and every argument and NULL as bound; none when nothing changed; refused if and only if the walk refuses a statement in the row |
| `TenantInsert.InsertBuilder.ResolveCtx` | clickhouse/insert.go:354-415 | hooks, then the statements in the bindings, then the sorting key and the tenant, then the widened list, in a copy; which error each condition gives; the builder itself is unchanged, and is returned exactly when it was resolved or nothing applied |
| `TenantInsert.InsertBuilder.WriteRows` | clickhouse/insert.go:202-232 | the column list and one aligned list of values per row |
| `TenantInsert.InsertBuilder.Insert` | clickhouse/insert.go:202-415 | from builder to values: refused as a whole, or every row has one value per column, the axis among them naming the context's tenant, and every other slot what the row, hooks included, binds to the column last, with a statement as the walk resolved it, or NULL |
| `TenantInsert.ScopedRowBelongsToTenant` | clickhouse/insert.go:577-611 | a resolved and stamped row under the widened list belongs to the tenant slot by slot |

## Left out

- Drivers, HTTP, hooks into `database/sql`, loggers, the Cloudflare client and code generation: I/O or foreign calls.
- Text of statements, refusals and errors: statements are values; only the clauses, quoting, conjunctions, settings and tag comments are modelled as text.
- `DiffOptions.Safe`: IF [NOT] EXISTS only matters to statements that the plan never emits against the live state it was made from.
- `NormalizeKeyExpr`: a parameter of the diff; the theorems hold for every normaliser.
- `strings.EqualFold` is modelled on ASCII letters.
- `SchemaPush.Connection.Push`: one statement succeeds or leaves no trace; background mutations that fail after the statement returned are not modelled, nor are the warnings Analyze adds.
- PREWHERE, FINAL, SAMPLE and Distributed evaluation: server semantics the code does not decide.
- Default filters on FULL and ASOF joined tables: placed as the code places them and covered by the same theorems; the code leaves them as they were on purpose.
- `Keyset.GuardExact`: assumes what the source assumes, that a column not declared Nullable holds no NULL, and does not model NaN keys, which the source documents as an open gap.
- `KeysetPages.WalkPages`: cursor values are carried as values; the base64 and JSON layer of EncodeCursor and Decode is a library.
- `Resolution`: filters are modelled by the answer they give for the request at hand, so a filter that answers differently on each call within one request is not.
- Locking around shared table scopes, migration registries and view managers: the model is sequential.
- `TenantInsert`: a handle is the table it belongs to and the name it renders as, which is what the source tells two apart by once aliases are resolved. Matching two tenant values is an abstract relation, and resolving one expression an abstract answer.
- `MirrorDelivery`: rows and keys are text, and how a driver's value becomes text is not modelled; the reader may deliver between steps, not inside one.
- `MirrorOutbox`: one pump per outbox, as the source asks; other consumers publish only events that are not ours. Cleanup of published rows and terminally failed rows are not modelled.
- `MirrorPoison.PoisonHoldsItsBatch`: one event that does not decode among pending events of ours. With several, or with foreign events between, batches shift in ways it does not cover; what one step does then is `MirrorArrival.SteppedExactly`.
- `MirrorSchedule.ArrivesIff`: the events pending at the start; the attempt budget that ends a run of failures is in `MirrorOutbox.OutboxPump.Step`.
- `MirrorTypes.MirrorHoldsIff`: the ranges of Date32, DateTime64 and Decimal are ClickHouse's own; a time of day, an interval, JSON and bytes are carried as text, and how a driver writes them is not modelled.
- `MirrorSource`: the initial copy of a table and columns the stream leaves out as unchanged are not modelled.
- `MirrorTable`: a column stores text, or in an integer column the number it spells; how other types normalise their text is not modelled.
- `MirrorTable.RowsExact`: merging in the background is not modelled; the view is what a FINAL read gives, with the later insertion winning a tie of versions.
- `SelectSharing`: the statements nested in an expression are values here; the arrays shared are those of the builder being resolved.
- `Settings.ValidateSettingValue`: white space beyond the Latin-1 range is not trimmed.
- The conditional operator `a ? b : c` inside a conjunct that binds at least as many arguments as it has marks: it cannot be told from placeholders in the text, which the source says too.
- `clickhouse/crypto.go`: AES-GCM and key management are libraries.
- `clickhouse/rowpolicy.go`, `types.go`, `funcs.go`, `template.go`, `mixin.go`, `ddl.go`: rendering of one clause each, with no state.
- `clickhouse/eventstore.go`: its concurrency check is advisory by its own statement. `clickhouse/querysize.go`: its bound is about an external driver's rendering.
- `mirror/reseed.go`, `verify.go`, `evolve.go`, `cloudflarequeues.go` and the other SQL dialects.
