/**
  What the mirrored table shows. The engine knows rows, not changes: it groups them by the
  sorting key that was bound for them. This is when that is the same as grouping by change key.
 */
module MirrorTable {
  import opened Wrappers
  import opened Strings
  import opened Numerals
  import opened NewestWins
  import opened MirrorVersions
  import opened MirrorClickHouse
  import MirrorDelivery

  // ------------------------------------------------------------------ the engine's view

  /** The default the server stores where a column is given nothing. */
  type Defaults = string -> string

  function ColOf(cols: seq<Col>, name: string): Col {
    if cols == [] then Col(name, "") else if cols[0].name == name then cols[0] else ColOf(cols[1..], name)
  }

  function Lookup(cols: seq<Col>, row: Row, name: string): Bound {
    if cols == [] || row == [] then Null
    else if cols[0].name == name then row[0]
    else Lookup(cols[1..], row[1..], name)
  }

  /** An integer column stores the number a text spells. */
  function Stored(col: Col, s: string): Bound {
    if IsInteger(col) && Atoi(s).Some? then Number(Atoi(s).value) else Value(s)
  }

  function Cell(zeros: Defaults, col: Col, b: Bound): Bound {
    match b
    case Null => Stored(col, zeros(col.name))
    case Number(n) => Number(n)
    case Value(s) => Stored(col, s)
  }

  function SortKey(t: Table, zeros: Defaults, row: Row): seq<Bound> {
    seq(|t.orderBy|, i requires 0 <= i < |t.orderBy| =>
      Cell(zeros, ColOf(t.cols, t.orderBy[i]), Lookup(t.cols, row, t.orderBy[i])))
  }

  function RowVersion(t: Table, row: Row): int {
    match Lookup(t.cols, row, VERSION_COLUMN)
    case Number(n) => n
    case _ => 0
  }

  predicate Deleted(t: Table, row: Row) {
    Lookup(t.cols, row, DELETED_COLUMN) == Number(1)
  }

  function Sorting(t: Table, zeros: Defaults): Row -> seq<Bound> {
    row => SortKey(t, zeros, row)
  }

  function Versions(t: Table): Row -> int {
    row => RowVersion(t, row)
  }

  /** The row a sorting key shows. */
  function Shown(t: Table, zeros: Defaults, rows: seq<Row>, sk: seq<Bound>): Option<Row> {
    Newest(Sorting(t, zeros), Versions(t), rows, sk)
  }

  /** A FINAL read that leaves out the tombstones. */
  ghost function FinalRead(t: Table, zeros: Defaults, rows: seq<Row>): set<Row> {
    set r | r in rows && Shown(t, zeros, rows, SortKey(t, zeros, r)) == Some(r) && !Deleted(t, r)
  }

  /** What the changes themselves ask to be shown: of every key its newest change, unless that is a delete. */
  ghost function ChangeRead(t: Table, writes: seq<Change>): set<Row> {
    set c | c in writes && Visible(writes, c.key) == Some(c) :: RowFor(t, c)
  }

  ghost predicate Faithful(t: Table, zeros: Defaults, writes: seq<Change>) {
    FinalRead(t, zeros, RowsOf(t, writes)) == ChangeRead(t, writes)
  }

  /** Whatever was delivered in whatever order, the rows delivered decide what a sorting key shows. */
  lemma RowsExact(t: Table, zeros: Defaults, rows: set<Row>, sk: seq<Bound>)
    ensures (forall a: seq<Row>, b: seq<Row> :: Written(a) == rows && Written(b) == rows ==>
               Shown(t, zeros, a, sk) == Shown(t, zeros, b, sk))
       <==> !Contested(Sorting(t, zeros), Versions(t), rows, sk)
  {
    NewestExact(Sorting(t, zeros), Versions(t), rows, sk);
    hide Newest, Sorting, Versions, Contested;
    if SetDetermined(Sorting(t, zeros), Versions(t), rows, sk) {
      forall a: seq<Row>, b: seq<Row> | Written(a) == rows && Written(b) == rows
        ensures Shown(t, zeros, a, sk) == Shown(t, zeros, b, sk)
      {
      }
    }
  }

  /** Replaying rows that were written changes nothing that is not contested. */
  lemma ReplayIsInert(t: Table, zeros: Defaults, rows: seq<Row>, again: seq<Row>)
    requires forall r :: r in again ==> r in rows
    requires forall r :: r in rows ==> !Contested(Sorting(t, zeros), Versions(t), Written(rows), SortKey(t, zeros, r))
    ensures FinalRead(t, zeros, rows + again) == FinalRead(t, zeros, rows)
  {
    hide Newest, Contested, SortKey, Deleted;
    assert Written(rows + again) == Written(rows) by {
      forall r ensures r in rows + again <==> r in rows {
      }
    }
    forall r | r in rows
      ensures Shown(t, zeros, rows + again, SortKey(t, zeros, r)) == Shown(t, zeros, rows, SortKey(t, zeros, r))
    {
      NewestBySet(Sorting(t, zeros), Versions(t), rows + again, rows, SortKey(t, zeros, r));
    }
  }

  // --------------------------------------------------------------- rows of changes

  lemma {:induction false} LookupAt(cols: seq<Col>, row: Row, i: nat)
    requires i < |cols| == |row| && Distinct(cols)
    ensures Lookup(cols, row, cols[i].name) == row[i] && ColOf(cols, cols[i].name) == cols[i]
  {
    if i > 0 {
      assert cols[1..][i - 1] == cols[i] && row[1..][i - 1] == row[i];
      LookupAt(cols[1..], row[1..], i - 1);
    }
  }

  lemma LookupRow(t: Table, ch: Change, name: string)
    requires Distinct(t.cols) && Named(t.cols, name)
    ensures Lookup(t.cols, RowFor(t, ch), name) == ValueFor(t, ColOf(t.cols, name), ch)
    ensures ColOf(t.cols, name).name == name
  {
    hide ValueFor;
    var i :| 0 <= i < |t.cols| && t.cols[i].name == name;
    LookupAt(t.cols, RowFor(t, ch), i);
  }

  lemma RowMeans(t: Table, k: string, ch: Change)
    requires Derived(t, k)
    ensures RowVersion(t, RowFor(t, ch)) == ch.version && (Deleted(t, RowFor(t, ch)) <==> ch.op == Delete)
  {
    hide RowFor;
    LookupRow(t, ch, VERSION_COLUMN);
    LookupRow(t, ch, DELETED_COLUMN);
  }

  function KeyCells(t: Table, zeros: Defaults, ch: Change): seq<Bound> {
    SortKey(t, zeros, RowFor(t, ch))
  }

  lemma KeyCell(t: Table, k: string, zeros: Defaults, ch: Change, i: nat)
    requires Derived(t, k) && i < |t.orderBy|
    ensures var col := ColOf(t.cols, t.orderBy[i]);
      |KeyCells(t, zeros, ch)| == |t.orderBy| && KeyCells(t, zeros, ch)[i] == Cell(zeros, col, ValueFor(t, col, ch))
  {
    hide ValueFor, RowFor;
    LookupRow(t, ch, t.orderBy[i]);
  }

  function RowOf(t: Table, c: Option<Change>): Option<Row> {
    match c
    case None => None
    case Some(ch) => Some(RowFor(t, ch))
  }

  /** Where the rows of one sorting key are exactly the changes of one key, its view is that key's. */
  lemma {:induction false} RowsShow(t: Table, k: string, zeros: Defaults, writes: seq<Change>, sk: seq<Bound>,
      key: string)
    requires Derived(t, k) && forall c :: c in writes ==> (KeyCells(t, zeros, c) == sk <==> c.key == key)
    ensures Shown(t, zeros, RowsOf(t, writes), sk) == RowOf(t, View(writes, key))
  {
    hide RowFor, Derived;
    if writes != [] {
      var (rest, last) := (writes[..|writes| - 1], writes[|writes| - 1]);
      RowsShow(t, k, zeros, rest, sk, key);
      assert RowsOf(t, writes)[..|rest|] == RowsOf(t, rest);
      RowMeans(t, k, last);
      if View(rest, key).Some? {
        RowMeans(t, k, View(rest, key).value);
      }
      hide RowVersion, SortKey;
    }
  }

  /** Two changes sort alike exactly when they have the same key. */
  ghost predicate Addressed(t: Table, zeros: Defaults, writes: seq<Change>) {
    forall c, d :: c in writes && d in writes ==> (KeyCells(t, zeros, c) == KeyCells(t, zeros, d) <==> c.key == d.key)
  }

  lemma AddressedShows(t: Table, k: string, zeros: Defaults, writes: seq<Change>, c: Change)
    requires Derived(t, k) && Addressed(t, zeros, writes) && c in writes
    ensures Shown(t, zeros, RowsOf(t, writes), KeyCells(t, zeros, c)) == RowOf(t, View(writes, c.key))
  {
    hide Shown, View, KeyCells, RowOf;
    RowsShow(t, k, zeros, writes, KeyCells(t, zeros, c), c.key);
  }

  lemma AddressedIsFaithful(t: Table, k: string, zeros: Defaults, writes: seq<Change>)
    requires Derived(t, k) && Addressed(t, zeros, writes)
    ensures Faithful(t, zeros, writes)
  {
    hide Derived, Addressed, Shown, View, Deleted, SortKey, RowFor;
    var rows := RowsOf(t, writes);
    forall r | r in FinalRead(t, zeros, rows) ensures r in ChangeRead(t, writes) {
      var i :| 0 <= i < |rows| && rows[i] == r;
      var c := writes[i];
      AddressedShows(t, k, zeros, writes, c);
      var x := View(writes, c.key).value;
      ViewIsHighest(writes, c.key);
      RowMeans(t, k, x);
      assert x in writes && Visible(writes, x.key) == Some(x);
    }
    forall r | r in ChangeRead(t, writes) ensures r in FinalRead(t, zeros, rows) {
      var c :| c in writes && Visible(writes, c.key) == Some(c) && RowFor(t, c) == r;
      var i :| 0 <= i < |writes| && writes[i] == c;
      assert rows[i] == r;
      AddressedShows(t, k, zeros, writes, c);
      RowMeans(t, k, c);
    }
  }

  // ------------------------------------------------------ which tables are faithful

  /** `names` gives the key column's value of every row a source has, by change key. */
  ghost predicate Follows(k: string, names: map<string, string>, writes: seq<Change>) {
    forall c :: c in writes ==>
      && c.key in names && (c.op != Delete ==> k in c.row) && (k in c.row ==> c.row[k] == names[c.key])
  }

  /** A key addresses a row when it spells the value its key column holds. */
  predicate Spells(col: Col, key: string, value: string) {
    if IsInteger(col) then Atoi(key).Some? && Atoi(key) == Atoi(value) else key == value
  }

  /** Sorted by the key column alone, and every key spells its row's value, no two of them the same. */
  ghost predicate Addresses(t: Table, k: string, names: map<string, string>) {
    && t.orderBy == [k]
    && (forall key :: key in names ==> Spells(ColOf(t.cols, k), key, names[key]))
    && (IsInteger(ColOf(t.cols, k)) ==>
          forall a, b :: a in names && b in names && a != b ==> Atoi(a) != Atoi(b))
  }

  lemma CellOfChange(t: Table, k: string, zeros: Defaults, names: map<string, string>, writes: seq<Change>, c: Change)
    requires Derived(t, k) && Addresses(t, k, names) && Follows(k, names, writes) && c in writes
    ensures KeyCells(t, zeros, c) == [Stored(ColOf(t.cols, k), names[c.key])]
  {
    hide RowFor, Atoi, SortKey;
    KeyCell(t, k, zeros, c, 0);
    LookupRow(t, c, k);
  }

  lemma AddressesRows(t: Table, k: string, zeros: Defaults, names: map<string, string>, writes: seq<Change>)
    requires Derived(t, k) && Addresses(t, k, names) && Follows(k, names, writes)
    ensures Addressed(t, zeros, writes)
  {
    hide KeyCells, Atoi, Derived;
    forall c, d | c in writes && d in writes
      ensures KeyCells(t, zeros, c) == KeyCells(t, zeros, d) <==> c.key == d.key
    {
      CellOfChange(t, k, zeros, names, writes, c);
      CellOfChange(t, k, zeros, names, writes, d);
    }
  }

  /** A tombstone that sorts elsewhere leaves the row it was to retire in view. */
  lemma TombstoneMisses(t: Table, k: string, zeros: Defaults, c: Change, d: Change)
    requires Derived(t, k) && c.key == d.key && c.op != Delete && d.op == Delete && c.version < d.version
    requires KeyCells(t, zeros, c) != KeyCells(t, zeros, d)
    ensures RowFor(t, c) in FinalRead(t, zeros, RowsOf(t, [c, d])) && ChangeRead(t, [c, d]) == {}
  {
    hide SortKey, RowFor, Deleted, Newest, Derived, RowVersion;
    RowMeans(t, k, c);
    var rows := [RowFor(t, c), RowFor(t, d)];
    assert RowsOf(t, [c, d]) == rows && rows[0] in rows;
    NewestOfTwo(Sorting(t, zeros), Versions(t), rows[0], rows[1], SortKey(t, zeros, rows[0]));
    NewestOfTwo(KeyOf, VersionOf, c, d, c.key);
  }

  /** A text that is stored as neither of two others. */
  function Another(col: Col, a: string, b: string): (s: string)
    ensures Stored(col, s) != Stored(col, a) && Stored(col, s) != Stored(col, b)
  {
    SmallNumbers(col);
    if Stored(col, "1") != Stored(col, a) && Stored(col, "1") != Stored(col, b) then "1"
    else if Stored(col, "2") != Stored(col, a) && Stored(col, "2") != Stored(col, b) then "2"
    else "3"
  }

  lemma SmallNumbers(col: Col)
    ensures Stored(col, "1") != Stored(col, "2") && Stored(col, "2") != Stored(col, "3")
    ensures Stored(col, "1") != Stored(col, "3")
  {
    assert "1"[..0] == "" && "2"[..0] == "" && "3"[..0] == "";
    assert DigitsValue("1") == 1 && DigitsValue("2") == 2 && DigitsValue("3") == 3;
  }

  /** The row of a key, holding in every sorting column something a tombstone of that key does not. */
  function Elusive(t: Table, k: string, key: string, value: string): map<string, string> {
    (map n | n in t.orderBy :: Another(ColOf(t.cols, n), key, "1"))[k := value]
  }

  function ElusiveDefaults(t: Table, k: string, value: string): Defaults {
    n => if n == k then Another(ColOf(t.cols, k), value, value) else "1"
  }

  lemma SomeTombstoneMisses(t: Table, k: string, key: string, value: string, c: Change, d: Change)
    requires Derived(t, k) && !(t.orderBy == [k] && Spells(ColOf(t.cols, k), key, value))
    requires c == Change(Insert, key, Elusive(t, k, key, value), 1, None) && d == Change(Delete, key, map[], 2, None)
    ensures KeyCells(t, ElusiveDefaults(t, k, value), c) != KeyCells(t, ElusiveDefaults(t, k, value), d)
  {
    hide Another, Atoi, KeyCells, RowFor;
    var zeros := ElusiveDefaults(t, k, value);
    var n := t.orderBy[0];
    KeyCell(t, k, zeros, c, 0);
    KeyCell(t, k, zeros, d, 0);
    LookupRow(t, c, n);
    var col := ColOf(t.cols, n);
    if n != k && !IsBookkeeping(n) {
      assert Stored(col, Another(col, key, "1")) != Stored(col, key);
      assert Stored(col, Another(col, key, "1")) != Stored(col, "1");
    } else if n == k {
      assert Stored(col, Another(col, value, value)) != Stored(col, value);
      assert c.row[k] == value;
    }
  }

  /** Two spellings of one number: two keys, one row. */
  lemma SecondSpellingReplaces(t: Table, k: string, zeros: Defaults, c: Change, d: Change)
    requires Derived(t, k) && c.key != d.key && c.op != Delete && d.op != Delete && c.version < d.version
    requires KeyCells(t, zeros, c) == KeyCells(t, zeros, d)
    ensures !Faithful(t, zeros, [c, d])
  {
    hide SortKey, RowFor, RowVersion, Newest, Derived, Deleted;
    RowMeans(t, k, c);
    RowMeans(t, k, d);
    var rows := [RowFor(t, c), RowFor(t, d)];
    assert RowsOf(t, [c, d]) == rows;
    NewestOfTwo(Sorting(t, zeros), Versions(t), rows[0], rows[1], SortKey(t, zeros, rows[0]));
    NewestOfTwo(KeyOf, VersionOf, c, d, c.key);
    assert c in [c, d];
    assert RowFor(t, c) in ChangeRead(t, [c, d]);
  }

  ghost predicate AlwaysFaithful(t: Table, k: string, names: map<string, string>) {
    forall zeros: Defaults, writes :: Follows(k, names, writes) ==> Faithful(t, zeros, writes)
  }

  /**
    What the table shows is what the changes ask for, whatever is delivered and whatever the
    server defaults to, exactly when it is sorted by the key column alone and every change key
    spells the value of that column, no value being spelled in two ways.
   */
  lemma TableIsFaithfulIff(t: Table, k: string, names: map<string, string>)
    requires Derived(t, k) && names != map[]
    ensures AlwaysFaithful(t, k, names) <==> Addresses(t, k, names)
  {
    hide Faithful, Atoi, Derived;
    if Addresses(t, k, names) {
      forall zeros: Defaults, writes | Follows(k, names, writes) ensures Faithful(t, zeros, writes) {
        AddressesRows(t, k, zeros, names, writes);
        AddressedIsFaithful(t, k, zeros, writes);
      }
    } else if key :| key in names && !(t.orderBy == [k] && Spells(ColOf(t.cols, k), key, names[key])) {
      NotSpelled(t, k, names, key);
    } else {
      assert exists key :: key in names by {
        assert names.Keys != {};
      }
      NotDistinct(t, k, names);
    }
  }

  lemma NotSpelled(t: Table, k: string, names: map<string, string>, key: string)
    requires Derived(t, k) && key in names && !(t.orderBy == [k] && Spells(ColOf(t.cols, k), key, names[key]))
    ensures !AlwaysFaithful(t, k, names)
  {
    hide KeyCells, RowFor, FinalRead, ChangeRead, ElusiveDefaults, Derived, Spells, Another, RowsOf;
    var c := Change(Insert, key, Elusive(t, k, key, names[key]), 1, None);
    var d := Change(Delete, key, map[], 2, None);
    var zeros := ElusiveDefaults(t, k, names[key]);
    SomeTombstoneMisses(t, k, key, names[key], c, d);
    TombstoneMisses(t, k, zeros, c, d);
    assert Follows(k, names, [c, d]);
    assert !Faithful(t, zeros, [c, d]);
  }

  lemma NotDistinct(t: Table, k: string, names: map<string, string>)
    requires Derived(t, k) && t.orderBy == [k]
    requires forall key :: key in names ==> Spells(ColOf(t.cols, k), key, names[key])
    requires !Addresses(t, k, names)
    ensures !AlwaysFaithful(t, k, names)
  {
    hide Atoi, RowFor, SortKey, Faithful, RowsOf;
    var a, b :| a in names && b in names && a != b && Atoi(a) == Atoi(b);
    var zeros: Defaults := _ => "";
    var c := Change(Insert, a, map[k := names[a]], 1, None);
    var d := Change(Insert, b, map[k := names[b]], 2, None);
    KeyCell(t, k, zeros, c, 0);
    KeyCell(t, k, zeros, d, 0);
    LookupRow(t, c, k);
    assert KeyCells(t, zeros, c) == KeyCells(t, zeros, d);
    SecondSpellingReplaces(t, k, zeros, c, d);
    assert Follows(k, names, [c, d]);
  }

  // ------------------------------------------------------- a mirror by primary key

  /** A change whose row, where it has one, holds its own key. */
  ghost predicate OwnKey(k: string, c: Change) {
    (c.op != Delete ==> k in c.row) && (k in c.row ==> c.row[k] == c.key)
  }

  /** Integer keys are written the one way an int64 is. */
  ghost predicate Canonical(col: Col, key: string) {
    IsInteger(col) ==> exists n :: -TWO_63 <= n < TWO_63 && key == Formatted(n)
  }

  ghost predicate KeyedBy(t: Table, k: string, writes: seq<Change>) {
    t.orderBy == [k] && forall c :: c in writes ==> OwnKey(k, c) && Canonical(ColOf(t.cols, k), c.key)
  }

  ghost function SelfNames(writes: seq<Change>): map<string, string> {
    map c | c in writes :: c.key := c.key
  }

  lemma KeyedByAddresses(t: Table, k: string, writes: seq<Change>)
    requires KeyedBy(t, k, writes)
    ensures Addresses(t, k, SelfNames(writes)) && Follows(k, SelfNames(writes), writes)
  {
    hide Atoi, Formatted;
    var col := ColOf(t.cols, k);
    forall a | a in SelfNames(writes) && IsInteger(col)
      ensures Atoi(a).Some? && Formatted(Atoi(a).value) == a
    {
      var n :| -TWO_63 <= n < TWO_63 && a == Formatted(n);
      FormattedParses(n);
    }
  }

  /** A table derived without another ORDER BY, fed changes that hold their own key, shows what they ask for. */
  lemma MirrorIsFaithful(t: Table, k: string, zeros: Defaults, writes: seq<Change>)
    requires Derived(t, k) && KeyedBy(t, k, writes)
    ensures Addressed(t, zeros, writes) && Faithful(t, zeros, writes)
  {
    hide Derived, KeyedBy, Addresses, Follows, Addressed, Faithful;
    KeyedByAddresses(t, k, writes);
    AddressesRows(t, k, zeros, SelfNames(writes), writes);
    AddressedIsFaithful(t, k, zeros, writes);
  }

  ghost predicate Held(m: MirrorDelivery.Message, tables: map<string, string>, k: string) {
    MirrorDelivery.Mirrored(tables, m.schema, m.table) ==>
      MirrorDelivery.KeyedAs(tables, m.schema, m.table, k) && (m.op != Some(Delete) ==> m.newRow.Some?)
  }

  /** The replication stream decodes to such changes. */
  lemma {:induction false} DecodedOwnKey(tx: MirrorDelivery.SourceTx, tables: map<string, string>, k: string, n: nat)
    requires n <= |tx.changes| && forall i :: 0 <= i < |tx.changes| ==> Held(tx.changes[i], tables, k)
    ensures var r := MirrorDelivery.DecodeFirst(tx, tables, n); r.Ok? ==> forall c :: c in r.value ==> OwnKey(k, c)
  {
    if n > 0 {
      DecodedOwnKey(tx, tables, k, n - 1);
      assert Held(tx.changes[n - 1], tables, k);
      MirrorDelivery.KeyColumnExact(tables, tx.changes[n - 1].schema, tx.changes[n - 1].table);
    }
  }

  /** All that a read shows with the sorting key of this change. */
  ghost function ShownAs(t: Table, zeros: Defaults, rows: seq<Row>, c: Change): set<Row> {
    set r | r in FinalRead(t, zeros, rows) && SortKey(t, zeros, r) == KeyCells(t, zeros, c)
  }

  lemma ShownAsVisible(t: Table, k: string, zeros: Defaults, writes: seq<Change>, c: Change)
    requires Derived(t, k) && Addressed(t, zeros, writes) && c in writes
    ensures ShownAs(t, zeros, RowsOf(t, writes), c) ==
            match Visible(writes, c.key) case None => {} case Some(x) => {RowFor(t, x)}
  {
    hide Derived, Shown, View, RowFor, SortKey, Deleted;
    var rows := RowsOf(t, writes);
    AddressedShows(t, k, zeros, writes, c);
    ViewIsHighest(writes, c.key);
    var x := View(writes, c.key).value;
    RowMeans(t, k, x);
    assert KeyCells(t, zeros, x) == KeyCells(t, zeros, c);
    var i :| 0 <= i < |writes| && writes[i] == x;
    assert rows[i] == RowFor(t, x) && rows[i] in rows;
  }

  /**
    The mirror of a stream of transactions, delivered in any order, repeated and re-batched: of
    every row it shows the last change of the latest transaction that touched it, and nothing of
    a row that change deletes; a delete and a re-insert inside one transaction included.
   */
  lemma MirrorShowsLatest(t: Table, k: string, zeros: Defaults, txs: seq<Tx>, i: nat, c: Change)
    requires Derived(t, k) && KeyedBy(t, k, Flatten(txs)) && Stream(txs)
    requires i < |txs| && LatestWriter(txs, i, c.key) && LastOf(txs[i].changes, c.key) == Some(c)
    ensures ShownAs(t, zeros, RowsOf(t, Flatten(txs)), c) == if c.op == Delete then {} else {RowFor(t, c)}
  {
    hide Derived, KeyedBy, ShownAs, RowFor, Addressed, Faithful, Stream, LastOf, View;
    var writes := Flatten(txs);
    MirrorIsFaithful(t, k, zeros, writes);
    LatestTransactionShows(txs, i, c.key);
    ViewIsHighest(writes, c.key);
    ShownAsVisible(t, k, zeros, writes, c);
  }

  // --------------------------------------------------------------- where it does not

  const DOCS := [Col("id", "Int64"), Col("team", "String"), Col(VERSION_COLUMN, "UInt64"), Col(DELETED_COLUMN, "UInt8")]

  lemma DocsDerived(orderBy: seq<string>)
    requires orderBy != [] && forall i :: 0 <= i < |orderBy| ==> orderBy[i] == "id" || orderBy[i] == "team"
    ensures Derived(Table(DOCS, orderBy), "id")
    ensures ColOf(DOCS, "id") == DOCS[0] && ColOf(DOCS, "team") == DOCS[1]
  {
    assert DOCS[0].name == "id" && DOCS[1].name == "team";
    assert DOCS[2].name == VERSION_COLUMN && DOCS[3].name == DELETED_COLUMN;
    assert DOCS[1..][0] == DOCS[1];
  }

  lemma PlainType(typ: string)
    requires typ != "" && !IsSpace(typ[0]) && !IsSpace(typ[|typ| - 1]) && IndexOf(typ, '(') == -1
    ensures SplitType(typ) == (typ, "")
  {
    hide IndexOf, IsSpace;
  }

  /** The table a source with a bigint key and a text column is mirrored into. */
  lemma DocsMirrored()
    ensures Mirrors(DOCS, [SourceCol("id", "bigint", true, true), SourceCol("team", "text", false, true)])
  {
    assert IndexOf("bigint", '(') == -1 && IndexOf("text", '(') == -1;
    PlainType("bigint");
    PlainType("text");
    hide SplitType, IndexOf;
    assert BaseType("bigint", "") == Some("Int64") && BaseType("text", "") == Some("String");
    hide BaseType;
    assert MapType("bigint", false) == Some("Int64") && MapType("text", false) == Some("String");
  }

  /** Sorted by (team, id), a deleted document stays in view. */
  lemma ReorderedTombstoneMisses(zeros: Defaults)
    requires zeros("team") == ""
    ensures var t := Table(DOCS, ["team", "id"]);
      var ins := Change(Insert, "7", map["id" := "7", "team" := "red"], 1, None);
      var del := Change(Delete, "7", map[], 2, None);
      && RowFor(t, ins) in FinalRead(t, zeros, RowsOf(t, [ins, del])) && Visible([ins, del], "7") == None
  {
    var t := Table(DOCS, ["team", "id"]);
    var ins := Change(Insert, "7", map["id" := "7", "team" := "red"], 1, None);
    var del := Change(Delete, "7", map[], 2, None);
    DocsDerived(t.orderBy);
    hide RowFor, KeyCells, Derived;
    KeyCell(t, "id", zeros, ins, 0);
    KeyCell(t, "id", zeros, del, 0);
    TombstoneMisses(t, "id", zeros, ins, del);
    NewestOfTwo(KeyOf, VersionOf, ins, del, "7");
  }

  /** A key that is not the number its row holds: the tombstone retires the row that holds the default. */
  lemma UnspelledTombstoneHidesAnother(zeros: Defaults)
    requires zeros("id") == "0"
    ensures var t := Table(DOCS, ["id"]);
      var other := Change(Insert, "doc-0", map["id" := "0", "team" := "red"], 1, None);
      var del := Change(Delete, "doc-7", map[], 2, None);
      && FinalRead(t, zeros, RowsOf(t, [other, del])) == {} && Visible([other, del], "doc-0") == Some(other)
  {
    hide RowFor, SortKey, Newest, Deleted, RowVersion, Derived, Lookup, KeyCells;
    var t := Table(DOCS, ["id"]);
    var other := Change(Insert, "doc-0", map["id" := "0", "team" := "red"], 1, None);
    var del := Change(Delete, "doc-7", map[], 2, None);
    DocsDerived(t.orderBy);
    RowMeans(t, "id", other);
    RowMeans(t, "id", del);
    UnspelledCells(zeros, other, del);
    var rows := [RowFor(t, other), RowFor(t, del)];
    assert RowsOf(t, [other, del]) == rows;
    SortAlike(t, zeros, other, del);
    NewestOfTwo(Sorting(t, zeros), Versions(t), rows[0], rows[1], SortKey(t, zeros, rows[0]));
    NewestOfTwo(KeyOf, VersionOf, other, del, "doc-0");
  }

  lemma SortAlike(t: Table, zeros: Defaults, c: Change, d: Change)
    requires KeyCells(t, zeros, c) == KeyCells(t, zeros, d)
    ensures SortKey(t, zeros, RowFor(t, c)) == SortKey(t, zeros, RowFor(t, d))
  {
  }

  lemma UnspelledCells(zeros: Defaults, other: Change, del: Change)
    requires zeros("id") == "0" && del.key == "doc-7" && del.op == Delete && del.row == map[]
    requires "id" in other.row && other.row["id"] == "0"
    ensures var t := Table(DOCS, ["id"]); KeyCells(t, zeros, other) == KeyCells(t, zeros, del)
  {
    var t := Table(DOCS, ["id"]);
    DocsDerived(t.orderBy);
    assert Atoi("doc-7") == None;
    hide Atoi, RowFor, KeyCells;
    KeyCell(t, "id", zeros, other, 0);
    KeyCell(t, "id", zeros, del, 0);
  }

  /** Two changes of one key at one version: the order they are delivered in shows. */
  lemma TieShowsDelivery(zeros: Defaults, version: uint64)
    ensures var t := Table(DOCS, ["id"]);
      var a := RowFor(t, Change(Update, "7", map["id" := "7", "team" := "red"], version, None));
      var b := RowFor(t, Change(Update, "7", map["id" := "7", "team" := "blue"], version, None));
      && Written([a, b]) == Written([b, a])
      && Shown(t, zeros, [a, b], SortKey(t, zeros, a)) == Some(b)
      && Shown(t, zeros, [b, a], SortKey(t, zeros, a)) == Some(a)
      && a != b
  {
    var t := Table(DOCS, ["id"]);
    var (c, d) := (Change(Update, "7", map["id" := "7", "team" := "red"], version, None),
                   Change(Update, "7", map["id" := "7", "team" := "blue"], version, None));
    DocsDerived(t.orderBy);
    KeyCell(t, "id", zeros, c, 0);
    KeyCell(t, "id", zeros, d, 0);
    RowMeans(t, "id", c);
    RowMeans(t, "id", d);
    var (a, b) := (RowFor(t, c), RowFor(t, d));
    assert a[1] != b[1];
    assert Written([a, b]) == {a, b} == Written([b, a]);
    hide RowFor, SortKey, Newest, RowVersion, Derived, Lookup;
    assert SortKey(t, zeros, a) == SortKey(t, zeros, b);
    NewestOfTwo(Sorting(t, zeros), Versions(t), a, b, SortKey(t, zeros, a));
    NewestOfTwo(Sorting(t, zeros), Versions(t), b, a, SortKey(t, zeros, a));
  }
}
