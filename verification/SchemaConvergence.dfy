/**
  Running a table's statements: no statement fails, the declared shape is reached
  under either reading of MODIFY COLUMN, and the next diff has nothing left to say.
 */
module SchemaConvergence {
  import opened Wrappers
  import opened StringOrder
  import opened TypeChange
  import opened SchemaStatements
  import opened SchemaDiff

  // ------------------------------------------------------------------ one column

  function Removed(live: Column, want: Column): Column {
    if live.InKey() then live
    else
      var c := if live.kind == "DEFAULT" && live.default != "" && want.default == ""
               then live.(default := "", kind := "") else live;
      if live.codec != "" && want.codec == "" then c.(codec := "") else c
  }

  function Restated(srv: Server, live: Column, want: Column, norm: Normalizer): Column {
    var c := Removed(live, want);
    if ClassifyTypeChange(want.typ, live.typ, live.InKey()).verdict == Refused then c
    else
      var d := if live.InKey() || !Restates(live, want, norm) then c
               else Modified(srv, c, Restatement(live, want).def);
      if live.comment == want.comment then d else d.(comment := want.comment)
  }

  /** Running the statements turns column n from x into y and changes nothing else. */
  ghost predicate Rewrites(srv: Server, ops: seq<Op>, n: string, x: Column, y: Column) {
    forall l: Live :: n in l.table.columns && l.table.columns[n] == x ==> Run(srv, ops, l) == Ok(WithColumn(l, n, y))
  }

  lemma RewritesNothing(srv: Server, n: string, x: Column)
    ensures Rewrites(srv, [], n, x, x)
  {
    forall l: Live | n in l.table.columns && l.table.columns[n] == x
      ensures Run(srv, [], l) == Ok(WithColumn(l, n, x))
    {
      assert l.table.columns[n := x] == l.table.columns;
    }
  }

  lemma RewritesOne(srv: Server, op: Op, n: string, x: Column, y: Column)
    requires forall l: Live :: n in l.table.columns && l.table.columns[n] == x ==>
               ApplyOp(srv, op, l) == Ok(WithColumn(l, n, y))
    ensures Rewrites(srv, [op], n, x, y)
  {
    hide ApplyOp;
    forall l: Live | n in l.table.columns && l.table.columns[n] == x
      ensures Run(srv, [op], l) == Ok(WithColumn(l, n, y))
    {
      assert [op][1..] == [];
      assert ApplyOp(srv, op, l) == Ok(WithColumn(l, n, y));
    }
  }

  lemma RewritesBoth(srv: Server, a: seq<Op>, b: seq<Op>, n: string, x: Column, y: Column, z: Column)
    requires Rewrites(srv, a, n, x, y) && Rewrites(srv, b, n, y, z)
    ensures Rewrites(srv, a + b, n, x, z)
  {
    hide Run;
    forall l: Live | n in l.table.columns && l.table.columns[n] == x
      ensures Run(srv, a + b, l) == Ok(WithColumn(l, n, z))
    {
      RunConcat(srv, a, b, l);
      var m := WithColumn(l, n, y);
      assert Run(srv, b, m) == Ok(WithColumn(m, n, z));
      assert l.table.columns[n := y][n := z] == l.table.columns[n := z];
    }
  }

  lemma RemovalRewrites(srv: Server, n: string, live: Column, want: Column)
    requires want.name == n
    ensures Rewrites(srv, RemovalOps(live, want), n, live, Removed(live, want))
  {
    hide Run, Rewrites;
    RewritesNothing(srv, n, live);
    if !live.InKey() {
      var mid := live;
      var first: seq<Op> := [];
      if live.kind == "DEFAULT" && live.default != "" && want.default == "" {
        mid := live.(default := "", kind := "");
        first := [RemoveDefault(n)];
        RewritesOne(srv, RemoveDefault(n), n, live, mid);
      }
      RewritesNothing(srv, n, mid);
      if live.codec != "" && want.codec == "" {
        RewritesOne(srv, RemoveCodec(n), n, mid, mid.(codec := ""));
        RewritesBoth(srv, first, [RemoveCodec(n)], n, live, mid, mid.(codec := ""));
      } else {
        RewritesBoth(srv, first, [], n, live, mid, mid);
      }
    }
  }

  lemma CommentRewrites(srv: Server, n: string, live: Column, want: Column, c: Column)
    requires want.name == n
    ensures Rewrites(srv, CommentOps(live, want), n, c,
                     if live.comment == want.comment then c else c.(comment := want.comment))
  {
    hide Run, Rewrites;
    RewritesNothing(srv, n, c);
    if live.comment != want.comment {
      RewritesOne(srv, CommentColumn(n, want.comment), n, c, c.(comment := want.comment));
    }
  }

  lemma RestatementRewrites(srv: Server, n: string, live: Column, want: Column, norm: Normalizer)
    requires want.name == n
    ensures Rewrites(srv, ColumnOps(live, want, norm), n, Removed(live, want), Restated(srv, live, want, norm))
  {
    hide Run, Rewrites, ClassifyTypeChange;
    var c := Removed(live, want);
    RewritesNothing(srv, n, c);
    CommentRewrites(srv, n, live, want, c);
    if !live.InKey() && Restates(live, want, norm) {
      var def := Restatement(live, want).def;
      var d := Modified(srv, c, def);
      RewritesOne(srv, ModifyColumn(def), n, c, d);
      CommentRewrites(srv, n, live, want, d);
      RewritesBoth(srv, [ModifyColumn(def)], CommentOps(live, want), n, c, d,
                   if live.comment == want.comment then d else d.(comment := want.comment));
    }
  }

  /** A column of the plain kind: no expression, or a DEFAULT. */
  ghost predicate Plain(c: Column) {
    c.kind == "DEFAULT" || (c.kind == "" && c.default == "")
  }

  /** The column is as declared, in some spelling and under some encoding of its type. */
  ghost predicate AsDeclared(live: Column, want: Column, norm: Normalizer) {
    && Settled(want.typ, live.typ)
    && norm(live.default) == norm(want.default) && (want.default == "" ==> live.default == "")
    && live.codec == want.codec && live.comment == want.comment
  }

  ghost predicate NothingLeft(live: Column, want: Column, norm: Normalizer) {
    RemovalOps(live, want) == [] && ColumnOps(live, want, norm) == []
  }

  lemma RestatedType(srv: Server, live: Column, want: Column, norm: Normalizer)
    requires Faithful(srv, norm) && want.typ != ""
    requires !live.InKey() && Restates(live, want, norm)
    ensures Settled(want.typ, srv.echoType(Restatement(live, want).def.typ))
  {
    var change := ClassifyTypeChange(want.typ, live.typ, false);
    var echo := srv.echoType(Restatement(live, want).def.typ);
    UnchangedIsSettled(want.typ, live.typ, false);
    UnchangedIsSettled(want.typ, echo, false);
    if change.verdict == Unchanged {
      assert SameType(echo, live.typ);
      SpellingIsNoChange(want.typ, live.typ, echo, false);
    } else {
      assert SameType(echo, change.to) by { hide ClassifyTypeChange; UnchangedTo(want.typ, live.typ); }
      ChangeSettles(want.typ, live.typ, false, echo);
    }
  }

  lemma UnchangedTo(want: string, live: string)
    requires want != ""
    ensures var c := ClassifyTypeChange(want, live, false); c.to == "" <==> c.verdict == Unchanged
  {
    hide NormalizeType, StripLowCardinality, SplitNullable, Widens, LowCardinalitySafe;
  }

  lemma EchoDefault(srv: Server, d: string, norm: Normalizer)
    requires Faithful(srv, norm)
    ensures norm(srv.echoDefault(d)) == norm(d)
  {
  }

  /** A settled non-key column with the declared codec and comment and no stray default has nothing left. */
  lemma DeclaredIsQuiet(c: Column, want: Column, norm: Normalizer)
    requires !c.InKey() && Settled(want.typ, c.typ)
    requires want.default != "" ==> norm(c.default) == norm(want.default)
    requires want.default == "" && c.kind == "DEFAULT" ==> c.default == ""
    requires want.codec == c.codec && want.comment == c.comment
    ensures NothingLeft(c, want, norm)
  {
    UnchangedIsSettled(want.typ, c.typ, false);
    hide ClassifyTypeChange, Settled;
  }

  lemma KeyColumnSettles(srv: Server, live: Column, want: Column, norm: Normalizer)
    requires live.InKey()
    ensures var c := Restated(srv, live, want, norm); NothingLeft(c, want, norm) && c.InKey() && c.typ == live.typ
  {
    UnchangedIsSettled(want.typ, live.typ, true);
    hide ClassifyTypeChange, Settled;
  }

  /** Where nothing is restated the removals and the comment are all there is to do. */
  lemma UnrestatedSettles(srv: Server, live: Column, want: Column, norm: Normalizer)
    requires !live.InKey() && !Restates(live, want, norm)
    ensures var c := Restated(srv, live, want, norm);
      NothingLeft(c, want, norm) && !c.InKey() && (Plain(live) ==> AsDeclared(c, want, norm))
  {
    hide ClassifyTypeChange, Settled, NothingLeft;
    UnchangedIsSettled(want.typ, live.typ, false);
    DeclaredIsQuiet(Restated(srv, live, want, norm), want, norm);
  }

  /** What a restatement leaves, whichever way omitted clauses are read. */
  lemma ModifiedClauses(srv: Server, live: Column, want: Column, def: Def, norm: Normalizer)
    requires Faithful(srv, norm) && !live.InKey()
    requires def.default == want.default && def.codec == want.codec
    ensures var c := Modified(srv, Removed(live, want), def);
      && !c.InKey() && c.codec == want.codec && c.typ == srv.echoType(def.typ)
      && (want.default != "" ==> norm(c.default) == norm(want.default))
      && (want.default == "" && c.kind == "DEFAULT" ==> c.default == "")
      && (want.default == "" && Plain(live) ==> c.default == "")
  {
    EchoDefault(srv, want.default, norm);
    hide Faithful;
  }

  lemma RestatedSettles(srv: Server, live: Column, want: Column, norm: Normalizer)
    requires Faithful(srv, norm) && want.typ != "" && !live.InKey() && Restates(live, want, norm)
    ensures var c := Restated(srv, live, want, norm);
      NothingLeft(c, want, norm) && !c.InKey() && (Plain(live) ==> AsDeclared(c, want, norm))
  {
    hide ClassifyTypeChange, Settled, NothingLeft, Faithful, Removed, Plain;
    UnchangedIsSettled(want.typ, live.typ, false);
    RestatedType(srv, live, want, norm);
    var def := Restatement(live, want).def;
    ModifiedClauses(srv, live, want, def, norm);
    CommentAfterRestatement(srv, live, want, def);
    hide Modified;
    DeclaredIsQuiet(Restated(srv, live, want, norm), want, norm);
  }

  lemma CommentAfterRestatement(srv: Server, live: Column, want: Column, def: Def)
    requires def.comment == want.comment
    ensures live.comment == want.comment ==> Modified(srv, Removed(live, want), def).comment == want.comment
  {
  }

  /** One pass settles a column: nothing is left to state, and a plain non-key column is as declared. */
  lemma ColumnSettles(srv: Server, live: Column, want: Column, norm: Normalizer)
    requires Faithful(srv, norm) && want.typ != ""
    ensures var c := Restated(srv, live, want, norm);
      && NothingLeft(c, want, norm)
      && c.name == live.name && c.InKey() == live.InKey() && (live.InKey() ==> c.typ == live.typ)
      && (!live.InKey() && Plain(live) ==> AsDeclared(c, want, norm))
  {
    hide ClassifyTypeChange, Settled, Faithful, NothingLeft, AsDeclared, Restates;
    if live.InKey() {
      KeyColumnSettles(srv, live, want, norm);
    } else if Restates(live, want, norm) {
      RestatedSettles(srv, live, want, norm);
    } else {
      UnrestatedSettles(srv, live, want, norm);
    }
  }

  /** Clause by clause what the declaration says, in the server's spelling, and nothing it does not say. */
  ghost predicate MadeAs(srv: Server, c: Column, want: Column) {
    && c.name == want.name && c.typ == srv.echoType(want.typ) && c.comment == want.comment && c.ttl == want.ttl
    && (want.default != "" ==> c.kind == "DEFAULT" && c.default == srv.echoDefault(want.default))
    && (want.default == "" ==> c.kind == "" && c.default == "")
    && c.codec == if want.codec == "" then "" else srv.echoCodec(want.codec)
  }

  lemma MadeSettles(srv: Server, c: Column, want: Column, norm: Normalizer)
    requires Faithful(srv, norm) && MadeAs(srv, c, want)
    ensures NothingLeft(c, want, norm) && AsDeclared(c, want, norm) && forall t :: ColumnRefusals(t, c, want) == []
  {
    UnchangedIsSettled(want.typ, c.typ, c.InKey());
    hide ClassifyTypeChange;
    assert forall d :: norm(srv.echoDefault(d)) == norm(d);
  }

  /** So is a column the server has just created, whatever keys it takes part in: it is as declared to the letter. */
  lemma StoredSettles(srv: Server, want: Column, flags: (bool, bool, bool), norm: Normalizer)
    requires Faithful(srv, norm)
    ensures var c := Stored(srv, DefOf(want), flags);
      && MadeAs(srv, c, want) && (c.inSortingKey, c.inPrimaryKey, c.inPartitionKey) == flags
      && NothingLeft(c, want, norm) && AsDeclared(c, want, norm) && forall t :: ColumnRefusals(t, c, want) == []
  {
    var c := Stored(srv, DefOf(want), flags);
    StoredIsMade(srv, want, flags);
    hide Stored;
    MadeSettles(srv, c, want, norm);
  }

  lemma StoredIsMade(srv: Server, want: Column, flags: (bool, bool, bool))
    ensures var c := Stored(srv, DefOf(want), flags);
      MadeAs(srv, c, want) && (c.inSortingKey, c.inPrimaryKey, c.inPartitionKey) == flags
  {
  }

  // -------------------------------------------------------------- what a plan cannot see

  /** A restated column has every clause the declaration says anything in, whichever way omitted ones are read. */
  lemma RestatedClauses(srv: Server, live: Column, want: Column, norm: Normalizer)
    requires !live.InKey() && Restates(live, want, norm)
    requires ClassifyTypeChange(want.typ, live.typ, false).verdict != Refused
    ensures var c := Restated(srv, live, want, norm);
      && c.name == live.name && c.comment == want.comment
      && (want.default != "" ==> c.kind == "DEFAULT" && c.default == srv.echoDefault(want.default))
      && (want.codec != "" ==> c.codec == srv.echoCodec(want.codec))
      && c.ttl == if want.ttl != "" then want.ttl else if srv.reading == Preserve then live.ttl else ""
  {
    hide ClassifyTypeChange;
  }

  /**
    A column TTL is not among what a snapshot reads, so no plan is made on its account: a plan leaves a
    column with its declared TTL exactly when it had it, or when something else of it is restated and
    the declaration has one or omitting it clears it.
   */
  lemma ColumnTTLIff(srv: Server, live: Column, want: Column, norm: Normalizer)
    ensures Restated(srv, live, want, norm).ttl == want.ttl <==>
      || live.ttl == want.ttl
      || (&& !live.InKey() && Restates(live, want, norm)
          && ClassifyTypeChange(want.typ, live.typ, false).verdict != Refused
          && (want.ttl != "" || srv.reading == Reset))
  {
    hide ClassifyTypeChange;
  }

  // ------------------------------------------------------------------ the phases

  ghost function Overwritten(m: map<string, Column>, names: seq<string>, target: map<string, Column>)
    : map<string, Column>
  {
    map c | c in m :: if c in names && c in target then target[c] else m[c]
  }

  /** Running the statements of the first name, then of the rest. */
  lemma RunNames(srv: Server, names: seq<string>, ops: map<string, seq<Op>>, l: Live, next: Live)
    requires names != [] && Run(srv, At(ops, names[0]), l) == Ok(next)
    ensures Run(srv, Concat(names, ops), l) == Run(srv, Concat(names[1..], ops), next)
  {
    hide Run;
    assert Concat(names, ops) == At(ops, names[0]) + Concat(names[1..], ops);
    RunConcat(srv, At(ops, names[0]), Concat(names[1..], ops), l);
  }

  lemma RunNone(srv: Server, names: seq<string>, ops: map<string, seq<Op>>, l: Live)
    requires names != [] ==> names[0] !in ops
    ensures Run(srv, Concat(names, ops), l) == if names == [] then Ok(l) else Run(srv, Concat(names[1..], ops), l)
  {
  }

  lemma RunSingle(srv: Server, op: Op, l: Live)
    ensures Run(srv, [op], l) == ApplyOp(srv, op, l)
  {
    hide ApplyOp;
    assert [op][1..] == [];
  }

  lemma OverwrittenStep(m: map<string, Column>, names: seq<string>, target: map<string, Column>)
    requires names != [] && Distinct(names)
    ensures names[0] !in target ==> Overwritten(m, names, target) == Overwritten(m, names[1..], target)
    ensures names[0] in target && names[0] in m ==>
              Overwritten(m, names, target) == Overwritten(m[names[0] := target[names[0]]], names[1..], target)
  {
    assert forall x :: x in names <==> x == names[0] || x in names[1..];
  }

  lemma Uncons(names: seq<string>)
    requires names != [] && Distinct(names)
    ensures Distinct(names[1..]) && names[0] !in names[1..]
    ensures forall x :: x in names <==> x == names[0] || x in names[1..]
    ensures Elements(names) == {names[0]} + Elements(names[1..])
  {
  }

  /** A phase that rewrites columns one at a time rewrites each of them and no other. */
  lemma {:induction false} PhaseRun(srv: Server, names: seq<string>, ops: map<string, seq<Op>>,
                                    source: map<string, Column>, target: map<string, Column>, l: Live)
    requires Distinct(names) && ops.Keys == source.Keys == target.Keys
    requires forall n :: n in ops ==> Rewrites(srv, ops[n], n, source[n], target[n])
    requires forall n :: n in names && n in ops ==> n in l.table.columns && l.table.columns[n] == source[n]
    ensures Run(srv, Concat(names, ops), l) == Ok(WithColumns(l, Overwritten(l.table.columns, names, target)))
  {
    var m := l.table.columns;
    if names == [] {
      assert Overwritten(m, names, target) == m;
      RunNone(srv, names, ops, l);
    } else {
      hide Run, Concat, Overwritten, Distinct, Elements;
      var n := names[0];
      Uncons(names);
      OverwrittenStep(m, names, target);
      if n in ops {
        assert Rewrites(srv, ops[n], n, source[n], target[n]);
        var next := WithColumn(l, n, target[n]);
        assert Run(srv, ops[n], l) == Ok(next);
        RunNames(srv, names, ops, l, next);
        hide Rewrites;
        PhaseRun(srv, names[1..], ops, source, target, next);
      } else {
        hide Rewrites;
        RunNone(srv, names, ops, l);
        PhaseRun(srv, names[1..], ops, source, target, l);
      }
    }
  }

  /** Every AFTER names a column that is live already or added by an earlier statement. */
  ghost predicate AfterPresent(names: seq<string>, before: map<string, Option<string>>, columns: set<string>) {
    forall i :: 0 <= i < |names| && names[i] in before && before[names[i]].Some? ==>
      before[names[i]].value in columns || before[names[i]].value in names[..i]
  }

  function AddOrder(order: seq<string>, names: seq<string>, prev: Table, before: map<string, Option<string>>)
    : seq<string>
    decreases names
  {
    if names == [] then order
    else if names[0] in prev.columns || names[0] !in before then AddOrder(order, names[1..], prev, before)
    else AddOrder(Placed(order, before[names[0]], names[0]), names[1..], prev, before)
  }

  ghost predicate Extended(srv: Server, cur: Table, l: Live, more: Live, added: set<string>) {
    && more.table == l.table.(columns := more.table.columns)
    && more.table.columns.Keys == l.table.columns.Keys + added
    && (forall c :: c in l.table.columns ==> more.table.columns[c] == l.table.columns[c])
    && (forall c :: c in more.table.columns && c !in l.table.columns ==>
          c in cur.columns && more.table.columns[c] == Stored(srv, DefOf(cur.columns[c]), (false, false, false)))
  }

  lemma AfterPresentRest(names: seq<string>, before: map<string, Option<string>>, columns: set<string>)
    requires names != [] && AfterPresent(names, before, columns)
    ensures names[0] in before && before[names[0]].Some? ==> before[names[0]].value in columns
    ensures AfterPresent(names[1..], before, columns + {names[0]})
  {
    forall i | 0 <= i < |names[1..]| && names[1..][i] in before && before[names[1..][i]].Some?
      ensures before[names[1..][i]].value in columns + {names[0]} || before[names[1..][i]].value in names[1..][..i]
    {
      assert names[1..][i] == names[i + 1];
      assert names[..i + 1] == [names[0]] + names[1..][..i];
    }
  }

  /** The names still to come: declared, and missing exactly where they were missing before. */
  ghost predicate Awaited(names: seq<string>, prev: Table, cur: Table, columns: set<string>) {
    forall n :: n in names ==> n in cur.columns && (n in prev.columns <==> n in columns)
  }

  lemma AwaitedRest(names: seq<string>, prev: Table, cur: Table, columns: set<string>)
    requires names != [] && Distinct(names) && Awaited(names, prev, cur, columns)
    ensures names[0] in cur.columns && (names[0] in prev.columns <==> names[0] in columns)
    ensures Awaited(names[1..], prev, cur, columns) && Awaited(names[1..], prev, cur, columns + {names[0]})
  {
    Uncons(names);
  }

  ghost predicate ReadyToAdd(names: seq<string>, prev: Table, cur: Table, before: map<string, Option<string>>,
      l: Live) {
    && before.Keys == cur.columns.Keys && Named(cur) && Distinct(names)
    && Awaited(names, prev, cur, l.table.columns.Keys) && AfterPresent(names, before, l.table.columns.Keys)
  }

  lemma AddStep(srv: Server, names: seq<string>, prev: Table, cur: Table, before: map<string, Option<string>>, l: Live)
    returns (next: Live)
    requires names != [] && ReadyToAdd(names, prev, cur, before, l)
    ensures ReadyToAdd(names[1..], prev, cur, before, next)
    ensures Run(srv, Concat(names, Additions(prev, cur, before)), l) ==
            Run(srv, Concat(names[1..], Additions(prev, cur, before)), next)
    ensures Extended(srv, cur, l, next, {names[0]} - prev.columns.Keys)
    ensures AddOrder(l.order, names, prev, before) == AddOrder(next.order, names[1..], prev, before)
  {
    hide Run, Concat, Distinct, Elements, AfterPresent, Extended, Named, AddOne, Additions, At, AddOrder, Placed,
         Awaited;
    var n := names[0];
    AfterPresentRest(names, before, l.table.columns.Keys);
    AwaitedRest(names, prev, cur, l.table.columns.Keys);
    Uncons(names);
    AdditionsAt(l.order, names, prev, cur, before);
    if n in prev.columns {
      assert l.table.columns.Keys + {n} == l.table.columns.Keys && {n} - prev.columns.Keys == {};
      NothingAdded(srv, cur, l);
      RunNone(srv, names, Additions(prev, cur, before), l);
      next := l;
    } else {
      assert {n} - prev.columns.Keys == {n};
      next := AddOne(srv, n, cur, before[n], l);
      AddOneApplies(srv, n, cur, before[n], l);
      RunNames(srv, names, Additions(prev, cur, before), l, next);
    }
  }

  lemma {:induction false} AddsRun(srv: Server, names: seq<string>, prev: Table, cur: Table,
                                   before: map<string, Option<string>>, l: Live)
    requires ReadyToAdd(names, prev, cur, before, l)
    ensures var r := Run(srv, Concat(names, Additions(prev, cur, before)), l);
      && r.Ok? && Extended(srv, cur, l, r.value, Elements(names) - prev.columns.Keys)
      && r.value.order == AddOrder(l.order, names, prev, before)
  {
    if names == [] {
      RunNone(srv, names, Additions(prev, cur, before), l);
      NothingAdded(srv, cur, l);
      assert Elements(names) - prev.columns.Keys == {};
    } else {
      hide *;
      var next := AddStep(srv, names, prev, cur, before, l);
      AddsRun(srv, names[1..], prev, cur, before, next);
      var r := Run(srv, Concat(names[1..], Additions(prev, cur, before)), next).value;
      ExtendedTwice(srv, cur, l, next, r, {names[0]} - prev.columns.Keys, Elements(names[1..]) - prev.columns.Keys);
      FirstAndRest(names, prev.columns.Keys);
    }
  }

  lemma FirstAndRest(names: seq<string>, live: set<string>)
    requires names != []
    ensures ({names[0]} - live) + (Elements(names[1..]) - live) == Elements(names) - live
  {
    assert names == [names[0]] + names[1..];
    ElementsCons(names[0], names[1..]);
  }

  lemma AdditionsAt(order: seq<string>, names: seq<string>, prev: Table, cur: Table,
      before: map<string, Option<string>>)
    requires names != [] && before.Keys == cur.columns.Keys && names[0] in cur.columns
    ensures var (n, ops) := (names[0], Additions(prev, cur, before));
      if n in prev.columns then
        n !in ops && AddOrder(order, names, prev, before) == AddOrder(order, names[1..], prev, before)
      else
        && At(ops, n) == [AddColumn(DefOf(cur.columns[n]), before[n])]
        && AddOrder(order, names, prev, before) == AddOrder(Placed(order, before[n], n), names[1..], prev, before)
  {
  }

  lemma NothingAdded(srv: Server, cur: Table, l: Live)
    ensures Extended(srv, cur, l, l, {})
  {
  }

  lemma AddOneApplies(srv: Server, n: string, cur: Table, after: Option<string>, l: Live)
    requires n in cur.columns && Named(cur) && n !in l.table.columns && (after.Some? ==> after.value in l.table.columns)
    ensures var next := AddOne(srv, n, cur, after, l);
      && Run(srv, [AddColumn(DefOf(cur.columns[n]), after)], l) == Ok(next)
      && Extended(srv, cur, l, next, {n}) && next.table.columns.Keys == l.table.columns.Keys + {n}
      && next.order == Placed(l.order, after, n)
  {
    RunSingle(srv, AddColumn(DefOf(cur.columns[n]), after), l);
    hide Run;
  }

  lemma ExtendedTwice(srv: Server, cur: Table, a: Live, b: Live, c: Live, s: set<string>, t: set<string>)
    requires Extended(srv, cur, a, b, s) && Extended(srv, cur, b, c, t)
    ensures Extended(srv, cur, a, c, s + t)
  {
    hide Stored;
  }

  function AddOne(srv: Server, n: string, cur: Table, after: Option<string>, l: Live): Live
    requires n in cur.columns
  {
    WithColumn(l, n, Stored(srv, DefOf(cur.columns[n]), (false, false, false))).(order := Placed(l.order, after, n))
  }

  // ---------------------------------------------------------------------- drops

  /** The names of s, in physical order. */
  function Keep(order: seq<string>, s: set<string>): seq<string> {
    if order == [] then []
    else if order[0] in s then [order[0]] + Keep(order[1..], s)
    else Keep(order[1..], s)
  }

  lemma {:induction false} KeepWithout(order: seq<string>, n: string, s: set<string>)
    requires n !in s
    ensures Keep(Without(order, n), s) == Keep(order, s)
  {
    if order != [] {
      KeepWithout(order[1..], n, s);
      if order[0] != n {
        assert ([order[0]] + Without(order[1..], n))[1..] == Without(order[1..], n);
      }
    }
  }

  /** The columns a drop phase gets rid of: undeclared and in no key. */
  ghost function Doomed(names: seq<string>, prev: Table, cur: Table): set<string> {
    set n | n in names && n in prev.columns && n !in cur.columns && !prev.columns[n].InKey()
  }

  ghost predicate Shrunk(cur: Table, l: Live, less: Live, gone: set<string>) {
    && less.table == l.table.(columns := less.table.columns)
    && less.table.columns.Keys == l.table.columns.Keys - gone
    && (forall c :: c in less.table.columns ==> less.table.columns[c] == l.table.columns[c])
    && Keep(less.order, cur.columns.Keys) == Keep(l.order, cur.columns.Keys)
  }

  lemma {:induction false} DropsRun(srv: Server, names: seq<string>, prev: Table, cur: Table, l: Live)
    requires Distinct(names) && Named(prev)
    requires forall n :: n in names && n in prev.columns && n !in cur.columns ==>
               n in l.table.columns && l.table.columns[n] == prev.columns[n]
    ensures var r := Run(srv, Concat(names, Drops(prev, cur)), l);
      r.Ok? && Shrunk(cur, l, r.value, Doomed(names, prev, cur))
  {
    var ops := Drops(prev, cur);
    if names == [] {
      RunNone(srv, names, ops, l);
      assert Doomed(names, prev, cur) == {};
    } else {
      Uncons(names);
      hide Run, Concat, Distinct, Elements, Keep;
      var (n, rest) := (names[0], names[1..]);
      if n in prev.columns && n !in cur.columns && !prev.columns[n].InKey() {
        var next := WithColumns(l, l.table.columns - {n}).(order := Without(l.order, n));
        assert Doomed(names, prev, cur) == Doomed(rest, prev, cur) + {n};
        RunSingle(srv, DropColumn(n), l);
        RunNames(srv, names, ops, l, next);
        DropsRun(srv, rest, prev, cur, next);
        KeepWithout(l.order, n, cur.columns.Keys);
      } else {
        assert Doomed(names, prev, cur) == Doomed(rest, prev, cur);
        RunEmpty(srv, l);
        RunNames(srv, names, ops, l, l);
        DropsRun(srv, rest, prev, cur, l);
      }
    }
  }

  lemma RunEmpty(srv: Server, l: Live)
    ensures Run(srv, [], l) == Ok(l)
  {
  }

  // ----------------------------------------------------------------------- tail

  /** What a declared setting is left at: as it is where it agrees, and as the server spells it otherwise. */
  function SettingLeft(srv: Server, prev: Table, cur: Table, k: string): string
    requires k in cur.settings
  {
    if k in prev.settings && prev.settings[k] == cur.settings[k] then cur.settings[k]
    else srv.echoSetting(k, cur.settings[k])
  }

  function SettingsLeft(srv: Server, prev: Table, cur: Table): map<string, string> {
    map k | k in cur.settings :: SettingLeft(srv, prev, cur, k)
  }

  ghost function SettingsAfter(had: map<string, string>, names: seq<string>, left: map<string, string>)
    : map<string, string>
  {
    map k | k in had.Keys + (set n | n in names && n in left) :: if k in names && k in left then left[k] else had[k]
  }

  lemma {:induction false} SettingsRun(srv: Server, names: seq<string>, prev: Table, cur: Table, l: Live)
    requires Distinct(names)
    requires forall k :: k in names && k in prev.settings ==>
      k in l.table.settings && l.table.settings[k] == prev.settings[k]
    ensures Run(srv, Concat(names, Settings(prev, cur)), l) ==
            Ok(l.(table := l.table.(settings := SettingsAfter(l.table.settings, names, SettingsLeft(srv, prev, cur)))))
  {
    var had := l.table.settings;
    var ops := Settings(prev, cur);
    var left := SettingsLeft(srv, prev, cur);
    if names == [] {
      RunNone(srv, names, ops, l);
      assert SettingsAfter(had, names, left) == had;
    } else {
      Uncons(names);
      SettingsStep(had, names, left);
      hide Run, Concat, Distinct, Elements, SettingsAfter;
      var (k, rest) := (names[0], names[1..]);
      if k in ops {
        var next := l.(table := l.table.(settings := had[k := srv.echoSetting(k, cur.settings[k])]));
        RunSingle(srv, ModifySetting(k, cur.settings[k]), l);
        RunNames(srv, names, ops, l, next);
        SettingsRun(srv, rest, prev, cur, next);
      } else {
        RunNone(srv, names, ops, l);
        SettingsRun(srv, rest, prev, cur, l);
      }
    }
  }

  lemma SettingsAt(had: map<string, string>, names: seq<string>, left: map<string, string>, k: string)
    ensures var a := SettingsAfter(had, names, left);
      && (k in a <==> k in had || (k in names && k in left))
      && (k in a ==> a[k] == if k in names && k in left then left[k] else had[k])
  {
  }

  lemma SettingsStep(had: map<string, string>, names: seq<string>, left: map<string, string>)
    requires names != [] && Distinct(names)
    ensures names[0] !in left || (names[0] in had && had[names[0]] == left[names[0]]) ==>
              SettingsAfter(had, names, left) == SettingsAfter(had, names[1..], left)
    ensures names[0] in left ==>
              SettingsAfter(had, names, left) == SettingsAfter(had[names[0] := left[names[0]]], names[1..], left)
  {
    Uncons(names);
    hide SettingsAfter, Distinct;
    var (n, rest) := (names[0], names[1..]);
    assert forall k :: k in names <==> k == n || k in rest;
    var a := SettingsAfter(had, names, left);
    if n !in left || (n in had && had[n] == left[n]) {
      var b := SettingsAfter(had, rest, left);
      forall k ensures (k in a <==> k in b) && (k in a ==> a[k] == b[k]) {
        SettingsAt(had, names, left, k);
        SettingsAt(had, rest, left, k);
      }
      assert a == b;
    }
    if n in left {
      var b := SettingsAfter(had[n := left[n]], rest, left);
      forall k ensures (k in a <==> k in b) && (k in a ==> a[k] == b[k]) {
        SettingsAt(had, names, left, k);
        SettingsAt(had[n := left[n]], rest, left, k);
      }
      assert a == b;
    }
  }

  // ----------------------------------------------------------- a server that respells

  /**
    A column that is added or restated with a codec has nothing left to say about it exactly when the
    server gives the codec back as it was written. One that fills in a level is restated for ever.
   */
  lemma CodecSettlesIff(srv: Server, live: Column, want: Column, norm: Normalizer)
    requires want.codec != "" && !live.InKey() && Settled(want.typ, live.typ)
    requires live.codec == srv.echoCodec(want.codec) && live.comment == want.comment
    requires want.default != "" ==> norm(live.default) == norm(want.default)
    ensures ColumnOps(live, want, norm) == [] <==> srv.echoCodec(want.codec) == want.codec
  {
    hide ClassifyTypeChange, Settled;
    UnchangedIsSettled(want.typ, live.typ, false);
  }

  /** ZSTD comes back as ZSTD(1): the restatement leaves the column as it was, and is made again. */
  lemma RespelledCodecReturns(srv: Server, live: Column, want: Column, norm: Normalizer)
    requires srv.echoCodec("ZSTD") == "ZSTD(1)" && want.codec == "ZSTD" && live.codec == "ZSTD(1)" && !live.InKey()
    requires Settled(want.typ, live.typ)
    ensures ColumnOps(live, want, norm) != []
    ensures Modified(srv, live, Restatement(live, want).def).codec == live.codec
  {
    hide ClassifyTypeChange, Settled;
    UnchangedIsSettled(want.typ, live.typ, false);
  }
}
