/**
  Table snapshots, the ALTER statements a plan is made of, and what a server does
  with each of them under either reading of MODIFY COLUMN.
 */
module SchemaStatements {
  import opened Wrappers
  import opened StringOrder
  import opened TypeChange

  // ------------------------------------------------------------------ snapshots

  /** `position` is read on the declared side only; the key flags on the live side only. */
  datatype Column = Column(
    name: string, typ: string, position: int, default: string, kind: string, codec: string, comment: string,
    ttl: string, inSortingKey: bool, inPrimaryKey: bool, inPartitionKey: bool)
  {
    predicate InKey() {
      inSortingKey || inPrimaryKey || inPartitionKey
    }
  }

  datatype Table = Table(
    columns: map<string, Column>, engine: string, params: seq<string>, sortingKey: string, primaryKey: string,
    partitionKey: string, ttl: string, settings: map<string, string>, sampleBy: string)

  /** A table on the server: its snapshot and its columns in physical order. */
  datatype Live = Live(table: Table, order: seq<string>)

  ghost predicate Named(t: Table) {
    forall n :: n in t.columns ==> t.columns[n].name == n
  }

  ghost predicate WellFormed(l: Live) {
    Named(l.table) && Distinct(l.order) && Elements(l.order) == l.table.columns.Keys
  }

  // ----------------------------------------------------------------- statements

  /** A column declaration; an empty clause is left out of the statement. */
  datatype Def = Def(name: string, typ: string, default: string, codec: string, ttl: string, comment: string)

  /** The body of an ALTER TABLE. A column is added FIRST when it is added after nothing. */
  datatype Op =
    | RemoveDefault(name: string)
    | RemoveCodec(name: string)
    | AddColumn(def: Def, after: Option<string>)
    | ModifyColumn(def: Def)
    | CommentColumn(name: string, text: string)
    | DropColumn(name: string)
    | ModifyTTL(expr: string)
    | RemoveTTL
    | ModifySetting(key: string, value: string)

  datatype Fault = NoSuchColumn | ColumnExists | AltersKeyColumn | NothingToRemove | NoSuchTable | TableExists

  // --------------------------------------------------------------------- server

  /** Whether a clause MODIFY COLUMN leaves out is kept or cleared. */
  datatype Reading = Preserve | Reset

  /** A server echoes every clause in its own spelling and decides which columns a key uses. */
  datatype Server = Server(
    reading: Reading, echoType: string -> string, echoDefault: string -> string, echoTTL: string -> string,
    echoCodec: string -> string, echoSetting: (string, string) -> string,
    keyFlags: (Table, string) -> (bool, bool, bool))

  type Normalizer = string -> string

  /**
    The echo reads the same as what was said: same type, same default, and never no TTL for some TTL.
    Codecs and setting values are compared as text, so those have to come back as they were written.
   */
  ghost predicate Faithful(srv: Server, norm: Normalizer) {
    && (forall t :: SameType(srv.echoType(t), t))
    && (forall d :: norm(srv.echoDefault(d)) == norm(d))
    && (forall e :: e != "" ==> srv.echoTTL(e) != "")
    && (forall c :: srv.echoCodec(c) == c)
    && (forall k, v :: srv.echoSetting(k, v) == v)
  }

  function Stored(srv: Server, def: Def, flags: (bool, bool, bool)): Column {
    Column(def.name, srv.echoType(def.typ), 0,
           if def.default == "" then "" else srv.echoDefault(def.default),
           if def.default == "" then "" else "DEFAULT",
           if def.codec == "" then "" else srv.echoCodec(def.codec), def.comment, def.ttl, flags.0, flags.1, flags.2)
  }

  function Clause(srv: Server, said: string, had: string): string {
    if said != "" then said else if srv.reading == Preserve then had else ""
  }

  function Modified(srv: Server, c: Column, def: Def): Column {
    c.(typ := srv.echoType(def.typ),
       default := if def.default != "" then srv.echoDefault(def.default) else Clause(srv, "", c.default),
       kind := if def.default != "" then "DEFAULT" else Clause(srv, "", c.kind),
       codec := if def.codec != "" then srv.echoCodec(def.codec) else Clause(srv, "", c.codec),
       comment := Clause(srv, def.comment, c.comment),
       ttl := Clause(srv, def.ttl, c.ttl))
  }

  function WithColumns(l: Live, columns: map<string, Column>): Live {
    l.(table := l.table.(columns := columns))
  }

  function WithColumn(l: Live, n: string, c: Column): Live {
    WithColumns(l, l.table.columns[n := c])
  }

  function Without(order: seq<string>, n: string): seq<string> {
    if order == [] then []
    else if order[0] == n then Without(order[1..], n)
    else [order[0]] + Without(order[1..], n)
  }

  function InsertAfter(order: seq<string>, after: string, n: string): seq<string> {
    if order == [] then []
    else if order[0] == after then [order[0], n] + order[1..]
    else [order[0]] + InsertAfter(order[1..], after, n)
  }

  function Placed(order: seq<string>, after: Option<string>, n: string): seq<string> {
    match after
    case None => [n] + order
    case Some(a) => InsertAfter(order, a, n)
  }

  function ApplyOp(srv: Server, op: Op, l: Live): Result<Live, Fault> {
    var columns := l.table.columns;
    match op
    case RemoveDefault(n) =>
      if n !in columns then Err(NoSuchColumn)
      else if columns[n].InKey() then Err(AltersKeyColumn)
      else if columns[n].kind != "DEFAULT" then Err(NothingToRemove)
      else Ok(WithColumn(l, n, columns[n].(default := "", kind := "")))
    case RemoveCodec(n) =>
      if n !in columns then Err(NoSuchColumn)
      else if columns[n].InKey() then Err(AltersKeyColumn)
      else if columns[n].codec == "" then Err(NothingToRemove)
      else Ok(WithColumn(l, n, columns[n].(codec := "")))
    case AddColumn(def, after) =>
      if def.name in columns then Err(ColumnExists)
      else if after.Some? && after.value !in columns then Err(NoSuchColumn)
      else Ok(WithColumn(l, def.name, Stored(srv, def, (false, false, false)))
              .(order := Placed(l.order, after, def.name)))
    case ModifyColumn(def) =>
      if def.name !in columns then Err(NoSuchColumn)
      else if columns[def.name].InKey() then Err(AltersKeyColumn)
      else Ok(WithColumn(l, def.name, Modified(srv, columns[def.name], def)))
    case CommentColumn(n, text) =>
      if n !in columns then Err(NoSuchColumn)
      else Ok(WithColumn(l, n, columns[n].(comment := text)))
    case DropColumn(n) =>
      if n !in columns then Err(NoSuchColumn)
      else if columns[n].InKey() then Err(AltersKeyColumn)
      else Ok(WithColumns(l, columns - {n}).(order := Without(l.order, n)))
    case ModifyTTL(e) => Ok(l.(table := l.table.(ttl := srv.echoTTL(e))))
    case RemoveTTL =>
      if l.table.ttl == "" then Err(NothingToRemove)
      else Ok(l.(table := l.table.(ttl := "")))
    case ModifySetting(k, v) => Ok(l.(table := l.table.(settings := l.table.settings[k := srv.echoSetting(k, v)])))
  }

  function Run(srv: Server, ops: seq<Op>, l: Live): Result<Live, Fault> {
    if ops == [] then Ok(l)
    else
      match ApplyOp(srv, ops[0], l)
      case Err(e) => Err(e)
      case Ok(next) => Run(srv, ops[1..], next)
  }

  lemma {:induction false} RunConcat(srv: Server, a: seq<Op>, b: seq<Op>, l: Live)
    ensures Run(srv, a + b, l) ==
            match Run(srv, a, l) { case Err(e) => Err(e) case Ok(m) => Run(srv, b, m) }
  {
    hide ApplyOp;
    if a == [] {
      assert a + b == b;
    } else {
      assert (a + b)[1..] == a[1..] + b;
      if ApplyOp(srv, a[0], l).Ok? {
        RunConcat(srv, a[1..], b, ApplyOp(srv, a[0], l).value);
      }
    }
  }

  // --------------------------------------------------------- the physical order

  lemma {:induction false} WithoutMeaning(order: seq<string>, n: string)
    requires Distinct(order)
    ensures Distinct(Without(order, n)) && Elements(Without(order, n)) == Elements(order) - {n}
  {
    if order != [] {
      WithoutMeaning(order[1..], n);
      ElementsCons(order[0], order[1..]);
      assert order == [order[0]] + order[1..];
      assert order[0] !in Elements(order[1..]);
      if order[0] != n {
        ElementsCons(order[0], Without(order[1..], n));
        DistinctCons(order[0], Without(order[1..], n));
      }
    }
  }

  lemma DistinctCons(x: string, s: seq<string>)
    requires Distinct(s) && x !in Elements(s)
    ensures Distinct([x] + s)
  {
  }

  lemma {:induction false} InsertAfterMeaning(order: seq<string>, after: string, n: string)
    requires Distinct(order) && n !in Elements(order) && after in Elements(order)
    ensures Distinct(InsertAfter(order, after, n)) && Elements(InsertAfter(order, after, n)) == Elements(order) + {n}
  {
    var rest := order[1..];
    assert order == [order[0]] + rest;
    ElementsCons(order[0], rest);
    assert order[0] !in Elements(rest);
    if order[0] == after {
      assert [order[0], n] + rest == [order[0]] + ([n] + rest);
      ElementsCons(n, rest);
      DistinctCons(n, rest);
      ElementsCons(order[0], [n] + rest);
      DistinctCons(order[0], [n] + rest);
    } else {
      InsertAfterMeaning(rest, after, n);
      ElementsCons(order[0], InsertAfter(rest, after, n));
      DistinctCons(order[0], InsertAfter(rest, after, n));
    }
  }

  lemma PlacedMeaning(order: seq<string>, after: Option<string>, n: string)
    requires Distinct(order) && n !in Elements(order) && (after.Some? ==> after.value in Elements(order))
    ensures Distinct(Placed(order, after, n)) && Elements(Placed(order, after, n)) == Elements(order) + {n}
  {
    match after
    case None => {
      ElementsCons(n, order);
      DistinctCons(n, order);
    }
    case Some(a) => InsertAfterMeaning(order, a, n);
  }

  /** Every accepted statement keeps the column map and the physical order in step. */
  lemma ApplyKeepsShape(srv: Server, op: Op, l: Live)
    requires WellFormed(l)
    ensures ApplyOp(srv, op, l).Ok? ==> WellFormed(ApplyOp(srv, op, l).value)
  {
    if ApplyOp(srv, op, l).Ok? {
      match op
      case AddColumn(def, after) => PlacedMeaning(l.order, after, def.name);
      case DropColumn(n) => WithoutMeaning(l.order, n);
      case _ =>
    }
  }

  lemma {:induction false} RunKeepsShape(srv: Server, ops: seq<Op>, l: Live)
    requires WellFormed(l)
    ensures Run(srv, ops, l).Ok? ==> WellFormed(Run(srv, ops, l).value)
  {
    hide ApplyOp, WellFormed;
    if ops != [] && ApplyOp(srv, ops[0], l).Ok? {
      ApplyKeepsShape(srv, ops[0], l);
      RunKeepsShape(srv, ops[1..], ApplyOp(srv, ops[0], l).value);
    }
  }

  // ------------------------------------------------ statements addressed by name

  /** The statements for each name, in the order of the names; a name the map leaves out has none. */
  function Concat<T>(names: seq<string>, m: map<string, seq<T>>): seq<T> {
    if names == [] then []
    else if names[0] in m then m[names[0]] + Concat(names[1..], m)
    else Concat(names[1..], m)
  }

  lemma {:induction false} ConcatSnoc<T>(names: seq<string>, n: string, m: map<string, seq<T>>)
    ensures Concat(names + [n], m) == Concat(names, m) + if n in m then m[n] else []
  {
    if names == [] {
      assert (names + [n])[1..] == [];
    } else {
      assert (names + [n])[1..] == names[1..] + [n];
      ConcatSnoc(names[1..], n, m);
    }
  }

  function At<T>(m: map<string, seq<T>>, n: string): seq<T> {
    if n in m then m[n] else []
  }

  /** One turn of a loop over the names. */
  lemma ConcatStep<T>(names: seq<string>, i: nat, m: map<string, seq<T>>)
    requires i < |names|
    ensures Concat(names[..i + 1], m) == Concat(names[..i], m) + At(m, names[i])
    ensures Concat(names[..0], m) == [] && Concat(names[..|names|], m) == Concat(names, m)
  {
    assert names[..i + 1] == names[..i] + [names[i]];
    ConcatSnoc(names[..i], names[i], m);
    assert names[..|names|] == names;
  }

  lemma {:induction false} ConcatSame<T>(names: seq<string>, a: map<string, seq<T>>, b: map<string, seq<T>>)
    requires forall i :: 0 <= i < |names| ==> At(a, names[i]) == At(b, names[i])
    ensures Concat(names, a) == Concat(names, b)
  {
    if names != [] {
      assert At(a, names[0]) == At(b, names[0]);
      forall i | 0 <= i < |names[1..]| ensures At(a, names[1..][i]) == At(b, names[1..][i]) {
        assert names[1..][i] == names[i + 1];
      }
      ConcatSame(names[1..], a, b);
    }
  }

  lemma {:induction false} ConcatNothing<T>(names: seq<string>, m: map<string, seq<T>>)
    requires forall n :: n in m ==> m[n] == []
    ensures Concat(names, m) == []
  {
    if names != [] {
      ConcatNothing(names[1..], m);
    }
  }

  lemma ConcatCons<T>(n: string, rest: seq<string>, m: map<string, seq<T>>)
    ensures Concat([n] + rest, m) == At(m, n) + Concat(rest, m)
  {
    assert ([n] + rest)[1..] == rest;
  }

  lemma ConcatLeast<T>(s: set<string>, m: map<string, seq<T>>)
    requires s != {}
    ensures Concat(InOrder(s), m) == At(m, Least(s)) + Concat(InOrder(s - {Least(s)}), m)
  {
    ConcatCons(Least(s), InOrder(s - {Least(s)}), m);
  }

  lemma {:induction false} ConcatSkip<T>(s: set<string>, x: string, m: map<string, seq<T>>)
    requires At(m, x) == []
    ensures Concat(InOrder(s), m) == Concat(InOrder(s - {x}), m)
  {
    hide InOrder, Concat, Sorted, Elements, Less, At;
    if x !in s {
      assert s - {x} == s;
    } else {
      var first := Least(s);
      ConcatLeast(s, m);
      if first != x {
        LeastUnique(s - {x}, first);
        ConcatLeast(s - {x}, m);
        ConcatSkip(s - {first}, x, m);
        assert s - {x} - {first} == s - {first} - {x};
      }
    }
  }

  /** Names with no statements do not matter, so two lists with the same effective names agree. */
  lemma {:induction false} ConcatSupport<T>(s: set<string>, t: set<string>, m: map<string, seq<T>>)
    requires t <= s && forall x :: x in s - t ==> At(m, x) == []
    ensures Concat(InOrder(s), m) == Concat(InOrder(t), m)
    decreases s
  {
    hide InOrder, Concat;
    if s - t == {} {
      forall x | x in s ensures x in t {
        assert x !in s - t;
      }
      assert s == t;
    } else {
      var x :| x in s - t;
      ConcatSkip(s, x, m);
      ConcatSupport(s - {x}, t, m);
    }
  }
}
