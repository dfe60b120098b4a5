/** The diff planner: what each helper appends to the plan, and the loops that call them. */
module SchemaDiff {
  import opened Wrappers
  import opened StringOrder
  import opened TypeChange
  import opened SchemaStatements

  datatype RefusalKind =
    RefuseEngine | RefuseSortingKey | RefusePrimaryKey | RefusePartitionKey | RefuseColumnType | RefuseDropColumn

  datatype Refusal = Refusal(kind: RefusalKind, table: string, column: string, from: string, to: string)

  datatype NoticeRule = SampleKey | UnrepresentableColumn | ColumnTTL | TableTTL

  /** A difference that is seen and withheld, with the object it concerns. */
  datatype Notice = Notice(rule: NoticeRule, table: string, column: string)

  /** CREATE TABLE lists the declared columns in `order`. */
  datatype Stmt =
    | DropTable(table: string)
    | CreateTable(table: string, decl: Table, order: seq<string>)
    | Alter(table: string, op: Op)

  // ------------------------------------------------------------------ one column

  function RemovalOps(live: Column, want: Column): seq<Op> {
    if live.InKey() then []
    else
      (if live.kind == "DEFAULT" && live.default != "" && want.default == "" then [RemoveDefault(want.name)] else [])
      + (if live.codec != "" && want.codec == "" then [RemoveCodec(want.name)] else [])
  }

  function CommentOps(live: Column, want: Column): seq<Op> {
    if live.comment == want.comment then [] else [CommentColumn(want.name, want.comment)]
  }

  predicate Restates(live: Column, want: Column, norm: Normalizer) {
    || ClassifyTypeChange(want.typ, live.typ, live.InKey()).verdict != Unchanged
    || (want.default != "" && norm(live.default) != norm(want.default))
    || (want.codec != "" && live.codec != want.codec)
  }

  function Restatement(live: Column, want: Column): Op {
    var to := ClassifyTypeChange(want.typ, live.typ, live.InKey()).to;
    ModifyColumn(Def(want.name, if to == "" then live.typ else to, want.default, want.codec, want.ttl, want.comment))
  }

  function ColumnOps(live: Column, want: Column, norm: Normalizer): seq<Op> {
    if ClassifyTypeChange(want.typ, live.typ, live.InKey()).verdict == Refused then []
    else if live.InKey() || !Restates(live, want, norm) then CommentOps(live, want)
    else [Restatement(live, want)] + CommentOps(live, want)
  }

  function ColumnRefusals(table: string, live: Column, want: Column): seq<Refusal> {
    if ClassifyTypeChange(want.typ, live.typ, live.InKey()).verdict == Refused
    then [Refusal(RefuseColumnType, table, want.name, live.typ, want.typ)]
    else []
  }

  function ColumnNotices(table: string, live: Column, want: Column): seq<Notice> {
    (if live.kind != "" && live.kind != "DEFAULT" then [Notice(UnrepresentableColumn, table, want.name)] else [])
    + (if want.ttl != "" then [Notice(ColumnTTL, table, want.name)] else [])
  }

  function DropOps(live: Column): seq<Op> {
    if live.InKey() then [] else [DropColumn(live.name)]
  }

  function DropRefusals(table: string, live: Column): seq<Refusal> {
    if live.InKey() then [Refusal(RefuseDropColumn, table, live.name, live.typ, "")] else []
  }

  // ------------------------------------------------------------ declaration order

  predicate Precedes(cur: Table, a: string, b: string)
    requires a in cur.columns && b in cur.columns
  {
    || cur.columns[a].position < cur.columns[b].position
    || (cur.columns[a].position == cur.columns[b].position && Less(a, b))
  }

  /** All columns by ascending position, name breaking ties. */
  ghost predicate IsDeclarationOrder(cur: Table, order: seq<string>) {
    && Elements(order) == cur.columns.Keys
    && (forall i :: 0 <= i < |order| ==> order[i] in cur.columns)
    && (forall i, j :: 0 <= i < j < |order| ==> Precedes(cur, order[i], order[j]))
  }

  /** A column with the greatest position below n's, or none when n is first. */
  ghost predicate IsColumnBefore(cur: Table, n: string, before: Option<string>)
    requires n in cur.columns
  {
    match before
    case None => forall c :: c in cur.columns ==> cur.columns[c].position >= cur.columns[n].position
    case Some(b) =>
      && b in cur.columns && cur.columns[b].position < cur.columns[n].position
      && forall c :: c in cur.columns && cur.columns[c].position < cur.columns[n].position ==>
           cur.columns[c].position <= cur.columns[b].position
  }

  /** Where the plan puts new columns: the order it adds them in and what each comes after. */
  datatype Layout = Layout(order: seq<string>, before: map<string, Option<string>>)

  ghost predicate IsLayout(cur: Table, y: Layout) {
    && IsDeclarationOrder(cur, y.order)
    && y.before.Keys == cur.columns.Keys
    && forall n :: n in cur.columns ==> IsColumnBefore(cur, n, y.before[n])
  }

  ghost predicate DistinctPositions(cur: Table) {
    forall a, b :: a in cur.columns && b in cur.columns && a != b ==> cur.columns[a].position != cur.columns[b].position
  }

  /** Every clause of the declaration, its TTL included. */
  function DefOf(c: Column): (d: Def)
    ensures d.name == c.name && d.typ == c.typ && d.default == c.default
    ensures d.codec == c.codec && d.ttl == c.ttl && d.comment == c.comment
  {
    Def(c.name, c.typ, c.default, c.codec, c.ttl, c.comment)
  }

  // ------------------------------------------------------------------- one table

  function Removals(prev: Table, cur: Table): map<string, seq<Op>> {
    map n | n in cur.columns && n in prev.columns :: RemovalOps(prev.columns[n], cur.columns[n])
  }

  function Additions(prev: Table, cur: Table, before: map<string, Option<string>>): map<string, seq<Op>>
    requires before.Keys == cur.columns.Keys
  {
    map n | n in cur.columns && n !in prev.columns :: [AddColumn(DefOf(cur.columns[n]), before[n])]
  }

  function Restatements(prev: Table, cur: Table, norm: Normalizer): map<string, seq<Op>> {
    map n | n in cur.columns && n in prev.columns :: ColumnOps(prev.columns[n], cur.columns[n], norm)
  }

  function Drops(prev: Table, cur: Table): map<string, seq<Op>> {
    map n | n in prev.columns && n !in cur.columns :: DropOps(prev.columns[n])
  }

  function TTLOps(prev: Table, cur: Table): seq<Op> {
    if prev.ttl == "" && cur.ttl != "" then [ModifyTTL(cur.ttl)]
    else if prev.ttl != "" && cur.ttl == "" then [RemoveTTL]
    else []
  }

  function Settings(prev: Table, cur: Table): map<string, seq<Op>> {
    map k | k in cur.settings && !(k in prev.settings && prev.settings[k] == cur.settings[k])
      :: [ModifySetting(k, cur.settings[k])]
  }

  ghost function TailOps(prev: Table, cur: Table): seq<Op> {
    TTLOps(prev, cur) + Concat(InOrder(cur.settings.Keys), Settings(prev, cur))
  }

  /** The statements of one table, phase by phase. */
  ghost function TableOps(prev: Table, cur: Table, norm: Normalizer, y: Layout): seq<Op>
    requires y.before.Keys == cur.columns.Keys
  {
    Concat(InOrder(cur.columns.Keys), Removals(prev, cur))
    + Concat(y.order, Additions(prev, cur, y.before))
    + Concat(InOrder(cur.columns.Keys), Restatements(prev, cur, norm))
    + Concat(InOrder(prev.columns.Keys), Drops(prev, cur))
    + TailOps(prev, cur)
  }

  function FoldCase(c: char): char {
    if 'A' <= c <= 'Z' then (c as int + 32) as char else c
  }

  predicate EqualFold(a: string, b: string) {
    |a| == |b| && forall i :: 0 <= i < |a| ==> FoldCase(a[i]) == FoldCase(b[i])
  }

  /** Two letters that differ in case alone lie 32 apart. */
  ghost predicate CaseApart(upper: char, lower: char) {
    65 <= upper as int <= 90 && lower as int == upper as int + 32
  }

  lemma EqualFoldExact(a: string, b: string)
    ensures EqualFold(a, b) <==>
      (|a| == |b| && forall i :: 0 <= i < |a| ==> a[i] == b[i] || CaseApart(a[i], b[i]) || CaseApart(b[i], a[i]))
  {
    if |a| == |b| {
      forall i | 0 <= i < |a|
        ensures FoldCase(a[i]) == FoldCase(b[i]) <==> a[i] == b[i] || CaseApart(a[i], b[i]) || CaseApart(b[i], a[i])
      {
      }
    }
  }

  function Joined(params: seq<string>): string {
    if params == [] then "" else if |params| == 1 then params[0] else params[0] + ", " + Joined(params[1..])
  }

  function EngineText(name: string, params: seq<string>): string {
    if name == "" then "/* drops/clickhouse: engine missing */" else name + "(" + Joined(params) + ")"
  }

  /** The parameters in order, a comma and a blank between each two. */
  lemma {:induction false} JoinedNext(params: seq<string>, p: string)
    ensures Joined(params + [p]) == if params == [] then p else Joined(params) + ", " + p
  {
    if params == [] {
      assert params + [p] == [p];
    } else {
      assert (params + [p])[1..] == params[1..] + [p];
      JoinedNext(params[1..], p);
      if |params| > 1 {
        var (first, rest) := (params[0] + ", ", Joined(params[1..]));
        assert first + (rest + ", " + p) == first + rest + ", " + p;
      } else {
        assert Joined(params[1..] + [p]) == p;
      }
    }
  }

  /** An engine is reported as it is written: its name and its parameters in brackets. */
  lemma EngineIsWritten(name: string, params: seq<string>)
    requires name != ""
    ensures var s := EngineText(name, params);
      |s| == |name| + |Joined(params)| + 2 && s[..|name|] == name && s[|name|] == '(' && s[|s| - 1] == ')'
      && s[|name| + 1..|s| - 1] == Joined(params)
  {
  }

  function KeyText(expr: string): (r: string)
    ensures r != "" && (expr != "" ==> r == expr)
  {
    if expr == "" then "nothing at all" else expr
  }

  function EngineRefusals(table: string, prev: Table, cur: Table): seq<Refusal> {
    if cur.engine != "" && !EqualFold(prev.engine, cur.engine) then
      [Refusal(RefuseEngine, table, "", prev.engine, cur.engine)]
    else if cur.engine != "" && prev.params != cur.params then
      [Refusal(RefuseEngine, table, "", EngineText(prev.engine, prev.params), EngineText(cur.engine, cur.params))]
    else []
  }

  function KeyRefusals(kind: RefusalKind, table: string, live: string, want: string): seq<Refusal> {
    if live != want then [Refusal(kind, table, "", KeyText(live), KeyText(want))] else []
  }

  function ShapeRefusals(table: string, prev: Table, cur: Table): seq<Refusal> {
    EngineRefusals(table, prev, cur)
    + KeyRefusals(RefuseSortingKey, table, prev.sortingKey, cur.sortingKey)
    + KeyRefusals(RefusePrimaryKey, table, prev.primaryKey, cur.primaryKey)
    + KeyRefusals(RefusePartitionKey, table, prev.partitionKey, cur.partitionKey)
  }

  function TypeRefusals(table: string, prev: Table, cur: Table): map<string, seq<Refusal>> {
    map n | n in cur.columns && n in prev.columns :: ColumnRefusals(table, prev.columns[n], cur.columns[n])
  }

  function KeptColumns(table: string, prev: Table, cur: Table): map<string, seq<Refusal>> {
    map n | n in prev.columns && n !in cur.columns :: DropRefusals(table, prev.columns[n])
  }

  function ShapeNotices(table: string, prev: Table, cur: Table): seq<Notice> {
    if prev.sampleBy != cur.sampleBy then [Notice(SampleKey, table, "")] else []
  }

  function NoticedColumns(table: string, prev: Table, cur: Table): map<string, seq<Notice>> {
    map n | n in cur.columns && n in prev.columns :: ColumnNotices(table, prev.columns[n], cur.columns[n])
  }

  /** Both sides have a TTL and the two do not read alike. */
  function TTLNotices(table: string, prev: Table, cur: Table, norm: Normalizer): seq<Notice> {
    if prev.ttl != "" && cur.ttl != "" && prev.ttl != cur.ttl && norm(prev.ttl) != norm(cur.ttl)
    then [Notice(TableTTL, table, "")]
    else []
  }

  ghost function TableNotices(table: string, prev: Table, cur: Table, norm: Normalizer): seq<Notice> {
    ShapeNotices(table, prev, cur)
    + Concat(InOrder(cur.columns.Keys), NoticedColumns(table, prev, cur))
    + TTLNotices(table, prev, cur, norm)
  }

  ghost function TableRefusals(table: string, prev: Table, cur: Table): seq<Refusal> {
    ShapeRefusals(table, prev, cur)
    + Concat(InOrder(cur.columns.Keys), TypeRefusals(table, prev, cur))
    + Concat(InOrder(prev.columns.Keys), KeptColumns(table, prev, cur))
  }

  // --------------------------------------------------------------- column layout

  lemma PrecedesIsDistinct(cur: Table, order: seq<string>)
    requires IsDeclarationOrder(cur, order)
    ensures Distinct(order)
  {
    forall i, j | 0 <= i < j < |order| ensures order[i] != order[j] {
      assert Precedes(cur, order[i], order[j]);
      LessTotal(order[i], order[j]);
    }
  }

  /** The immediately preceding declared column, found by ranging over the map. */
  method ColumnBefore(cur: Table, n: string) returns (best: Option<string>)
    requires n in cur.columns
    ensures IsColumnBefore(cur, n, best)
  {
    best := None;
    var left := cur.columns.Keys;
    while left != {}
      invariant left <= cur.columns.Keys
      invariant best.Some? ==> best.value in cur.columns && cur.columns[best.value].position < cur.columns[n].position
      invariant forall c :: c in cur.columns && c !in left && cur.columns[c].position < cur.columns[n].position ==>
                  best.Some? && cur.columns[c].position <= cur.columns[best.value].position
    {
      var c :| c in left;
      left := left - {c};
      if cur.columns[c].position < cur.columns[n].position
         && (best.None? || cur.columns[c].position > cur.columns[best.value].position) {
        best := Some(c);
      }
    }
  }

  function PositionOf(cur: Table, n: string): int {
    if n in cur.columns then cur.columns[n].position else 0
  }

  ghost predicate AllDeclared(cur: Table, s: seq<string>) {
    Distinct(s) && Elements(s) == cur.columns.Keys && forall i :: 0 <= i < |s| ==> s[i] in cur.columns
  }

  /** The first i names are in declaration order, the rest in name order and after all of those by name. */
  ghost predicate SortedUpTo(cur: Table, s: seq<string>, i: nat)
    requires AllDeclared(cur, s)
  {
    && (forall a, b :: 0 <= a < b < i && b < |s| ==> Precedes(cur, s[a], s[b]))
    && (forall a, b :: 0 <= a < b < |s| && b >= i ==> Less(s[a], s[b]))
  }

  /** As above, except that the name being inserted has reached j and belongs before all up to i. */
  ghost predicate Inserting(cur: Table, s: seq<string>, i: nat, j: nat)
    requires AllDeclared(cur, s)
  {
    && j <= i < |s|
    && (forall a, b :: 0 <= a < b <= i && a != j && b != j ==> Precedes(cur, s[a], s[b]))
    && (forall b :: j < b <= i ==> Precedes(cur, s[j], s[b]))
    && (forall a :: 0 <= a < j ==> Less(s[a], s[j]))
    && (forall a, b :: 0 <= a < b < |s| && b > i ==> Less(s[a], s[b]))
  }

  lemma SwapKeeps(cur: Table, s: seq<string>, j: nat)
    requires AllDeclared(cur, s) && 0 < j < |s|
    ensures AllDeclared(cur, s[j - 1 := s[j]][j := s[j - 1]])
  {
    var t := s[j - 1 := s[j]][j := s[j - 1]];
    forall x ensures x in Elements(t) <==> x in Elements(s) {
      if x in Elements(s) {
        var k :| 0 <= k < |s| && s[k] == x;
        assert t[if k == j then j - 1 else if k == j - 1 then j else k] == x;
      }
    }
  }

  lemma SwapStep(cur: Table, s: seq<string>, i: nat, j: nat)
    requires AllDeclared(cur, s) && Inserting(cur, s, i, j) && 0 < j
    requires PositionOf(cur, s[j - 1]) > PositionOf(cur, s[j])
    ensures var t := s[j - 1 := s[j]][j := s[j - 1]]; AllDeclared(cur, t) && Inserting(cur, t, i, j - 1)
  {
    SwapKeeps(cur, s, j);
    var t := s[j - 1 := s[j]][j := s[j - 1]];
    assert Precedes(cur, s[j], s[j - 1]);
    hide Less, Elements, Distinct, Precedes;
    forall a, b | 0 <= a < b <= i && a != j - 1 && b != j - 1 ensures Precedes(cur, t[a], t[b]) {
      assert t[a] == s[if a == j then j - 1 else a] && t[b] == s[if b == j then j - 1 else b];
    }
    forall b | j - 1 < b <= i ensures Precedes(cur, t[j - 1], t[b]) {
      assert t[b] == s[if b == j then j - 1 else b];
    }
  }

  lemma InsertionStarts(cur: Table, s: seq<string>, i: nat)
    requires AllDeclared(cur, s) && SortedUpTo(cur, s, i) && i < |s|
    ensures Inserting(cur, s, i, i)
  {
    hide Less, Elements, Distinct;
  }

  lemma InsertionEnds(cur: Table, s: seq<string>, i: nat, j: nat)
    requires AllDeclared(cur, s) && Inserting(cur, s, i, j)
    requires j > 0 ==> PositionOf(cur, s[j - 1]) <= PositionOf(cur, s[j])
    ensures SortedUpTo(cur, s, i + 1)
  {
    hide Less, Elements, Distinct;
    forall a | 0 <= a < j ensures Precedes(cur, s[a], s[j]) {
      assert a < j - 1 ==> Precedes(cur, s[a], s[j - 1]);
    }
  }

  lemma SortStarts(cur: Table)
    ensures AllDeclared(cur, InOrder(cur.columns.Keys)) && SortedUpTo(cur, InOrder(cur.columns.Keys), 1)
  {
    InOrderDistinct(cur.columns.Keys);
  }

  lemma SortEnds(cur: Table, s: seq<string>, i: nat)
    requires AllDeclared(cur, s) && SortedUpTo(cur, s, i) && i >= |s|
    ensures IsDeclarationOrder(cur, s)
  {
    hide Less, Elements, Distinct, Precedes;
  }

  /** Insertion sort by position over the name-sorted columns. */
  method ColumnsByPosition(cur: Table) returns (order: seq<string>)
    ensures IsDeclarationOrder(cur, order)
  {
    hide AllDeclared, Inserting, SortedUpTo, InOrder, IsDeclarationOrder, PositionOf;
    var names := SortedKeys(cur.columns.Keys);
    SortStarts(cur);
    var out := new string[|names|](i requires 0 <= i < |names| => names[i]);
    assert out[..] == names;
    var i := 1;
    while i < out.Length
      invariant 1 <= i && AllDeclared(cur, out[..]) && SortedUpTo(cur, out[..], i)
    {
      var j := i;
      InsertionStarts(cur, out[..], i);
      while j > 0 && PositionOf(cur, out[j - 1]) > PositionOf(cur, out[j])
        invariant 0 <= j <= i && AllDeclared(cur, out[..]) && Inserting(cur, out[..], i, j)
      {
        ghost var s := out[..];
        SwapStep(cur, s, i, j);
        out[j - 1], out[j] := out[j], out[j - 1];
        assert out[..] == s[j - 1 := s[j]][j := s[j - 1]];
        j := j - 1;
      }
      InsertionEnds(cur, out[..], i, j);
      i := i + 1;
    }
    order := out[..];
    SortEnds(cur, order, i);
  }
}
