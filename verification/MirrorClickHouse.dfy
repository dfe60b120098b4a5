/**
  The derived ClickHouse table, the sink that appends to it, and what a FINAL read without
  tombstones shows of the rows it wrote: the newest of those with one sorting key.
 */
module MirrorClickHouse {
  import opened Wrappers
  import opened Strings
  import opened Numerals
  import opened NewestWins
  import opened MirrorVersions

  const VERSION_COLUMN := "_drops_version"
  const DELETED_COLUMN := "_drops_deleted"

  datatype Col = Col(name: string, typ: string)
  datatype Table = Table(cols: seq<Col>, orderBy: seq<string>)

  predicate IsBookkeeping(name: string) {
    name == VERSION_COLUMN || name == DELETED_COLUMN
  }

  ghost predicate Named(cols: seq<Col>, name: string) {
    exists i :: 0 <= i < |cols| && cols[i].name == name
  }

  ghost predicate Distinct(cols: seq<Col>) {
    forall i, j :: 0 <= i < j < |cols| ==> cols[i].name != cols[j].name
  }

  /** A table that mirrors one with the key column k. */
  ghost predicate Derived(t: Table, k: string) {
    && Distinct(t.cols) && Named(t.cols, k) && !IsBookkeeping(k)
    && Named(t.cols, VERSION_COLUMN) && Named(t.cols, DELETED_COLUMN)
    && t.orderBy != [] && forall i :: 0 <= i < |t.orderBy| ==> Named(t.cols, t.orderBy[i])
  }

  // ------------------------------------------------------------------ deriving the table

  datatype SourceCol = SourceCol(name: string, typ: string, primary: bool, notNull: bool)
  datatype DeriveFault = Reserved | CompositeKey | NoKey | NoType | NoColumn

  /** "numeric(10,2)" into "numeric" and "10,2". */
  function SplitType(s: string): (string, string) {
    var t := TrimSpace(s);
    var i := IndexOf(t, '(');
    if i < 0 then (t, "")
    else
      var args := t[i + 1..];
      (TrimSpace(t[..i]), if args != "" && args[|args| - 1] == ')' then args[..|args| - 1] else args)
  }

  function BaseType(base: string, args: string): Option<string> {
    if base == "smallint" then Some("Int16")
    else if base in {"integer", "serial"} then Some("Int32")
    else if base in {"bigint", "bigserial"} then Some("Int64")
    else if base == "real" then Some("Float32")
    else if base == "double precision" then Some("Float64")
    else if base == "boolean" then Some("Bool")
    else if base == "uuid" then Some("UUID")
    else if base == "date" then Some("Date32")
    else if base == "timestamp" then Some("DateTime64(6)")
    else if base == "timestamptz" then Some("DateTime64(6, 'UTC')")
    else if base == "numeric" then Some(if args == "" then "String" else "Decimal(" + args + ")")
    else if base in {"text", "varchar", "char", "interval", "time", "json", "jsonb", "bytea"} then Some("String")
    else None
  }

  function MapType(pgType: string, nullable: bool): Option<string> {
    var (base, args) := SplitType(pgType);
    match BaseType(base, args)
    case None => None
    case Some(out) => Some(if nullable then "Nullable(" + out + ")" else out)
  }

  function MappedType(c: SourceCol): Option<string> {
    MapType(c.typ, !c.notNull && !c.primary)
  }

  ghost predicate DistinctSource(src: seq<SourceCol>) {
    forall i, j :: 0 <= i < j < |src| ==> src[i].name != src[j].name
  }

  /** The columns are the source's with their types mapped, and the two the mirror adds. */
  ghost predicate Mirrors(cols: seq<Col>, src: seq<SourceCol>) {
    && |cols| == |src| + 2
    && (forall i :: 0 <= i < |src| ==> cols[i].name == src[i].name && MappedType(src[i]) == Some(cols[i].typ))
    && cols[|src|] == Col(VERSION_COLUMN, "UInt64") && cols[|src| + 1] == Col(DELETED_COLUMN, "UInt8")
  }

  method DeriveClickHouse(src: seq<SourceCol>, orderBy: seq<string>)
    returns (r: Result<Table, DeriveFault>, ghost k: nat)
    requires DistinctSource(src)
    ensures r.Ok? ==>
      && k < |src| && src[k].primary && (forall i :: 0 <= i < |src| && src[i].primary ==> i == k)
      && Derived(r.value, src[k].name) && Mirrors(r.value.cols, src)
      && r.value.orderBy == if orderBy == [] then [src[k].name] else orderBy
    ensures r == Err(Reserved) ==> exists i :: 0 <= i < |src| && IsBookkeeping(src[i].name)
    ensures r == Err(CompositeKey) ==> exists i, j :: 0 <= i < j < |src| && src[i].primary && src[j].primary
    ensures r == Err(NoKey) ==> forall i :: 0 <= i < |src| ==> !src[i].primary
    ensures r == Err(NoType) ==> exists i :: 0 <= i < |src| && MappedType(src[i]).None?
    ensures r == Err(NoColumn) ==> exists i :: 0 <= i < |orderBy| && !IsBookkeeping(orderBy[i])
                                               && forall j :: 0 <= j < |src| ==> src[j].name != orderBy[i]
  {
    hide MappedType;
    var pk: Option<nat> := None;
    k := 0;
    for i := 0 to |src|
      invariant pk.None? ==> forall j :: 0 <= j < i ==> !src[j].primary
      invariant pk.Some? ==> pk.value < i && src[pk.value].primary
      invariant pk.Some? ==> forall j :: 0 <= j < i && src[j].primary ==> j == pk.value
      invariant forall j :: 0 <= j < i ==> !IsBookkeeping(src[j].name)
    {
      if IsBookkeeping(src[i].name) {
        return Err(Reserved), 0;
      }
      if src[i].primary {
        if pk.Some? {
          return Err(CompositeKey), 0;
        }
        pk := Some(i);
      }
    }
    if pk.None? {
      return Err(NoKey), 0;
    }
    k := pk.value;
    var cols: seq<Col> := [];
    for i := 0 to |src|
      invariant |cols| == i
      invariant forall j :: 0 <= j < i ==> cols[j].name == src[j].name && MappedType(src[j]) == Some(cols[j].typ)
    {
      var typ := MappedType(src[i]);
      if typ.None? {
        return Err(NoType), k;
      }
      cols := cols + [Col(src[i].name, typ.value)];
    }
    cols := cols + [Col(VERSION_COLUMN, "UInt64"), Col(DELETED_COLUMN, "UInt8")];
    var order := if orderBy == [] then [src[pk.value].name] else orderBy;
    for i := 0 to |order|
      invariant forall j :: 0 <= j < i ==> Named(cols, order[j])
    {
      var found := false;
      for c := 0 to |cols|
        invariant found ==> Named(cols, order[i])
        invariant !found ==> forall d :: 0 <= d < c ==> cols[d].name != order[i]
      {
        found := found || cols[c].name == order[i];
      }
      if !found {
        NotNamed(cols, src, orderBy, order, k, i);
        return Err(NoColumn), k;
      }
    }
    assert cols[k].name == src[k].name && cols[|src|].name == VERSION_COLUMN && cols[|src| + 1].name == DELETED_COLUMN;
    return Ok(Table(cols, order)), k;
  }

  lemma NotNamed(cols: seq<Col>, src: seq<SourceCol>, orderBy: seq<string>, order: seq<string>, k: nat, i: nat)
    requires Mirrors(cols, src) && k < |src| && i < |order| && order == if orderBy == [] then [src[k].name] else orderBy
    requires forall d :: 0 <= d < |cols| ==> cols[d].name != order[i]
    ensures i < |orderBy| && !IsBookkeeping(orderBy[i]) && forall j :: 0 <= j < |src| ==> src[j].name != orderBy[i]
  {
    hide MappedType;
    assert cols[k].name == src[k].name;
    assert cols[|src|].name == VERSION_COLUMN && cols[|src| + 1].name == DELETED_COLUMN;
    forall j | 0 <= j < |src| ensures src[j].name != order[i] {
      assert cols[j].name == src[j].name;
    }
  }

  // ------------------------------------------------------------------------ the sink

  /** What is bound for a column: nothing, a number the sink made, or a value of the row. */
  datatype Bound = Null | Number(n: int) | Value(s: string)

  type Row = seq<Bound>

  predicate IsInteger(col: Col) {
    HasPrefix(col.typ, "Int") || HasPrefix(col.typ, "UInt")
  }

  /** The change's key as the only ORDER BY column takes it; an integer column needs an int64. */
  function KeyValue(t: Table, col: Col, key: string): Option<Bound> {
    if |t.orderBy| != 1 || t.orderBy[0] != col.name then None
    else if IsInteger(col) then
      match Atoi(key)
      case Some(n) => Some(Number(n))
      case None => None
    else Some(Value(key))
  }

  function ValueFor(t: Table, col: Col, ch: Change): Bound {
    if col.name == VERSION_COLUMN then Number(ch.version)
    else if col.name == DELETED_COLUMN then Number(if ch.op == Delete then 1 else 0)
    else if col.name in ch.row then Value(ch.row[col.name])
    else if ch.op == Delete && KeyValue(t, col, ch.key).Some? then KeyValue(t, col, ch.key).value
    else Null
  }

  function RowFor(t: Table, ch: Change): (r: Row)
    ensures |r| == |t.cols| && forall i :: 0 <= i < |r| ==> r[i] == ValueFor(t, t.cols[i], ch)
  {
    seq(|t.cols|, i requires 0 <= i < |t.cols| => ValueFor(t, t.cols[i], ch))
  }

  function RowsOf(t: Table, writes: seq<Change>): (rows: seq<Row>)
    ensures |rows| == |writes| && forall i :: 0 <= i < |rows| ==> rows[i] == RowFor(t, writes[i])
  {
    seq(|writes|, i requires 0 <= i < |writes| => RowFor(t, writes[i]))
  }

  class ClickHouseSink {
    const table: Table
    var rows: seq<Row>

    constructor (table: Table)
      ensures rows == [] && this.table == table
    {
      this.table := table;
      rows := [];
    }

    /** One insert for the whole batch: the bound row of every change in order, or none of them. */
    method Apply(changes: seq<Change>, up: bool) returns (ok: bool)
      modifies this`rows
      ensures ok <==> (forall i :: 0 <= i < |changes| ==> changes[i].key != "") && (up || changes == [])
      ensures rows == if ok then old(rows) + RowsOf(table, changes) else old(rows)
    {
      hide ValueFor;
      if changes == [] {
        assert rows + RowsOf(table, changes) == rows;
        return true;
      }
      var ins: seq<Row> := [];
      for i := 0 to |changes|
        invariant ins == RowsOf(table, changes)[..i]
        invariant forall j :: 0 <= j < i ==> IsValid(changes[j])
      {
        if !IsValid(changes[i]) {
          return false;
        }
        var vals: Row := [];
        for c := 0 to |table.cols|
          invariant vals == RowFor(table, changes[i])[..c]
        {
          vals := vals + [ValueFor(table, table.cols[c], changes[i])];
        }
        assert vals == RowFor(table, changes[i]);
        ins := ins + [vals];
      }
      if !up {
        return false;
      }
      rows := rows + ins;
      return true;
    }
  }
}
