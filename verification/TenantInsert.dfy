/** Tenant-scoped INSERT: hooks, stamping, widening the column list and aligning the rows with it. */
module TenantInsert {
  import opened Wrappers
  import opened StringOrder

  /** What a slot renders: one bound argument, an expression only the server evaluates, or NULL. */
  datatype Value = Literal(v: string) | Opaque(text: string) | Null

  /** A value bound to a column: the name it renders as, and the table of the handle it was bound through. */
  datatype Binding = Binding(col: string, value: Value, owner: string)

  /** What tells two handles apart: an alias copy counts as the column it was copied from. */
  datatype Handle = Handle(owner: string, name: string)

  datatype Error = TenantMissing | TenantMismatch | TenantNotInSortingKey | StatementRefused

  type Row = seq<Binding>

  // -------------------------------------------------------------------- alignment

  function Count(cols: seq<string>, k: string): nat {
    if cols == [] then 0 else Count(cols[..|cols| - 1], k) + if cols[|cols| - 1] == k then 1 else 0
  }

  /** The values bound to a name, in order. */
  function Bound(row: Row, k: string): seq<Value> {
    if row == [] then []
    else if row[|row| - 1].col == k then Bound(row[..|row| - 1], k) + [row[|row| - 1].value]
    else Bound(row[..|row| - 1], k)
  }

  function LastOf(s: seq<Value>, n: nat): seq<Value> {
    if |s| <= n then s else s[|s| - n..]
  }

  /** Slot j of the list takes, of the last bindings of its name, the one its turn has come to. */
  function Slot(cols: seq<string>, row: Row, j: nat): Value
    requires j < |cols|
  {
    var q := LastOf(Bound(row, cols[j]), Count(cols, cols[j]));
    var turn := Count(cols[..j], cols[j]);
    if turn < |q| then q[turn] else Null
  }

  lemma LastOfSnoc(s: seq<Value>, x: Value, n: nat)
    requires n > 0
    ensures LastOf(LastOf(s, n) + [x], n) == LastOf(s + [x], n)
  {
  }

  lemma CountSnoc(cols: seq<string>, i: nat, k: string)
    requires i < |cols|
    ensures Count(cols[..i + 1], k) == Count(cols[..i], k) + if cols[i] == k then 1 else 0
  {
    assert cols[..i + 1][..i] == cols[..i];
  }

  lemma BoundSnoc(row: Row, i: nat, k: string)
    requires i < |row|
    ensures Bound(row[..i + 1], k) == Bound(row[..i], k) + if row[i].col == k then [row[i].value] else []
  {
    assert row[..i + 1][..i] == row[..i];
  }

  lemma {:induction false} CountIn(cols: seq<string>, k: string)
    ensures Count(cols, k) > 0 <==> k in cols
  {
    if cols != [] {
      CountIn(cols[..|cols| - 1], k);
      assert k in cols <==> k in cols[..|cols| - 1] || k == cols[|cols| - 1];
    }
  }

  function Get<V>(m: map<string, seq<V>>, k: string): seq<V> {
    if k in m then m[k] else []
  }

  /** How many slots each name of the list has. */
  method CountSlots(cols: seq<string>) returns (slots: map<string, nat>)
    ensures forall k :: (k in slots <==> k in cols) && (k in slots ==> slots[k] == Count(cols, k) > 0)
  {
    slots := map[];
    for i := 0 to |cols|
      invariant forall k :: (k in slots <==> k in cols[..i]) && (k in slots ==> slots[k] == Count(cols[..i], k))
    {
      hide Count;
      forall k ensures Count(cols[..i + 1], k) == Count(cols[..i], k) + if cols[i] == k then 1 else 0 {
        CountSnoc(cols, i, k);
      }
      assert cols[..i + 1] == cols[..i] + [cols[i]];
      CountIn(cols[..i], cols[i]);
      slots := slots[cols[i] := (if cols[i] in slots then slots[cols[i]] else 0) + 1];
    }
    assert cols[..|cols|] == cols;
    forall k | k in slots ensures Count(cols, k) > 0 {
      CountIn(cols, k);
    }
  }

  /** Each name's queue: its last bindings, as many as it has slots. */
  method Queues(cols: seq<string>, row: Row) returns (bound: map<string, seq<Value>>)
    ensures forall k :: k in cols ==> Get(bound, k) == LastOf(Bound(row, k), Count(cols, k))
  {
    var slots := CountSlots(cols);
    bound := map[];
    assert row[..0] == [];
    for i := 0 to |row|
      invariant forall k :: k in cols ==> Get(bound, k) == LastOf(Bound(row[..i], k), Count(cols, k))
    {
      hide Count, Bound, LastOf;
      var b := row[i];
      forall k ensures Bound(row[..i + 1], k) == Bound(row[..i], k) + if row[i].col == k then [row[i].value] else [] {
        BoundSnoc(row, i, k);
      }
      forall k | k != b.col ensures Bound(row[..i + 1], k) == Bound(row[..i], k) {
      }
      if b.col !in slots {
        continue;
      }
      var n := slots[b.col];
      var q := Get(bound, b.col) + [b.value];
      LastOfSnoc(Bound(row[..i], b.col), b.value, n);
      q := LastOf(q, n);
      bound := bound[b.col := q];
    }
    assert row[..|row|] == row;
  }

  /** One value per column of the list: the last bindings of each name, NULL where there are none left. */
  method AlignRow(cols: seq<string>, row: Row) returns (out: seq<Value>)
    ensures |out| == |cols| && forall j :: 0 <= j < |cols| ==> out[j] == Slot(cols, row, j)
  {
    hide Count, Bound, LastOf, Slot, Rest;
    var bound := Queues(cols, row);
    ghost var queues := bound;
    out := [];
    forall k ensures Get(bound, k) == Rest(Get(queues, k), Count(cols[..0], k)) {
      RestStarts(cols, Get(queues, k), k);
    }
    for j := 0 to |cols|
      invariant |out| == j && forall i :: 0 <= i < j ==> out[i] == Slot(cols, row, i)
      invariant forall k :: k in cols ==> Get(bound, k) == Rest(Get(queues, k), Count(cols[..j], k))
    {
      var k := cols[j];
      assert k in cols;
      SlotIsRest(cols, row, j);
      RestNext(Get(queues, k), Count(cols[..j], k));
      forall x ensures Count(cols[..j + 1], x) == Count(cols[..j], x) + if k == x then 1 else 0 {
        CountSnoc(cols, j, x);
      }
      var q := Get(bound, k);
      if |q| == 0 {
        out := out + [Null];
        continue;
      }
      out := out + [q[0]];
      bound := bound[k := q[1..]];
    }
  }

  lemma RestStarts(cols: seq<string>, q: seq<Value>, k: string)
    ensures Rest(q, Count(cols[..0], k)) == q
  {
  }

  lemma RestNext(q: seq<Value>, n: nat)
    ensures Rest(q, n + 1) == if Rest(q, n) == [] then [] else Rest(q, n)[1..]
  {
  }

  lemma SlotIsRest(cols: seq<string>, row: Row, j: nat)
    requires j < |cols|
    ensures var q := Rest(LastOf(Bound(row, cols[j]), Count(cols, cols[j])), Count(cols[..j], cols[j]));
      Slot(cols, row, j) == if q == [] then Null else q[0]
  {
  }

  function Rest(q: seq<Value>, n: nat): seq<Value> {
    if n < |q| then q[n..] else []
  }

  lemma {:induction false} DistinctCount(cols: seq<string>, j: nat)
    requires Distinct(cols) && j < |cols|
    ensures Count(cols, cols[j]) == 1 && Count(cols[..j], cols[j]) == 0
  {
    CountIn(cols[..j], cols[j]);
    assert cols[j] !in cols[..j];
    var front := cols[..|cols| - 1];
    if j < |cols| - 1 {
      DistinctCount(front, j);
      assert cols[|cols| - 1] != cols[j];
    } else {
      assert front == cols[..j];
    }
  }

  /** With distinct names a slot holds the row's last binding of its name, or NULL. */
  lemma DistinctSlot(cols: seq<string>, row: Row, j: nat)
    requires Distinct(cols) && j < |cols|
    ensures var b := Bound(row, cols[j]); Slot(cols, row, j) == if b == [] then Null else b[|b| - 1]
  {
    DistinctCount(cols, j);
    hide Count, Bound;
  }

  // ------------------------------------------------------------------------ hooks

  /** The bindings that hooks add: each column once, the first hook's, and none the list already has. */
  function HookBindings(cols: seq<string>, hooks: seq<Binding>): seq<Binding> {
    if hooks == [] then []
    else
      var (before, h) := (HookBindings(cols, hooks[..|hooks| - 1]), hooks[|hooks| - 1]);
      if h.col in cols || h.col in Names(before) then before else before + [h]
  }

  /** Every hooked column ends in the list, once, and none that was listed is bound again. */
  lemma {:induction false} HookedColumns(cols: seq<string>, hooks: seq<Binding>)
    ensures var added := HookBindings(cols, hooks);
      && (Distinct(cols) ==> Distinct(cols + Names(added)))
      && (forall i :: 0 <= i < |added| ==> added[i] in hooks && added[i].col !in cols)
      && (forall h :: h in hooks ==> h.col in cols || h.col in Names(added))
  {
    if hooks != [] {
      var (front, h) := (hooks[..|hooks| - 1], hooks[|hooks| - 1]);
      HookedColumns(cols, front);
      var before := HookBindings(cols, front);
      assert hooks == front + [h] && h in hooks;
      var added := HookBindings(cols, hooks);
      forall i | 0 <= i < |added| ensures added[i] in hooks && added[i].col !in cols {
        if i < |before| {
          assert added[i] == before[i] && before[i] in front;
        } else {
          assert added[i] == h;
        }
      }
      assert Names(before + [h]) == Names(before) + [h.col];
      assert cols + Names(before + [h]) == (cols + Names(before)) + [h.col];
    }
  }

  /** Each is the first binding of its column, and they come in the order they were bound. */
  ghost predicate FirstInTurn(hooks: seq<Binding>, added: seq<Binding>, at: seq<nat>) {
    && |at| == |added| && (forall i, j :: 0 <= i < j < |at| ==> at[i] < at[j])
    && forall i :: 0 <= i < |at| ==>
         at[i] < |hooks| && hooks[at[i]] == added[i] && forall k :: 0 <= k < at[i] ==> hooks[k].col != added[i].col
  }

  lemma {:induction false} HooksInTurn(cols: seq<string>, hooks: seq<Binding>) returns (at: seq<nat>)
    ensures FirstInTurn(hooks, HookBindings(cols, hooks), at)
  {
    at := [];
    if hooks != [] {
      var (front, h) := (hooks[..|hooks| - 1], hooks[|hooks| - 1]);
      at := HooksInTurn(cols, front);
      HookedColumns(cols, front);
      var before := HookBindings(cols, front);
      hide HookBindings;
      HookBindingsSnoc(cols, front, h);
      assert hooks == front + [h];
      var adds := h.col !in cols && h.col !in Names(before);
      assert forall k :: 0 <= k < |front| ==> front[k] in front;
      TurnNext(front, h, before, at, adds);
      at := if adds then at + [|front|] else at;
    }
  }

  lemma TurnNext(front: seq<Binding>, h: Binding, before: seq<Binding>, at: seq<nat>, adds: bool)
    requires FirstInTurn(front, before, at) && (adds ==> forall k :: 0 <= k < |front| ==> front[k].col != h.col)
    ensures FirstInTurn(front + [h], if adds then before + [h] else before, if adds then at + [|front|] else at)
  {
  }

  lemma HookBindingsSnoc(cols: seq<string>, hooks: seq<Binding>, h: Binding)
    ensures HookBindings(cols, hooks + [h]) ==
      var before := HookBindings(cols, hooks); if h.col in cols || h.col in Names(before) then before else before + [h]
  {
    assert (hooks + [h])[..|hooks|] == hooks;
  }

  ghost predicate Tracks(bound: set<string>, cols: seq<string>, added: seq<Binding>) {
    forall c :: c in bound <==> c in cols || c in Names(added)
  }

  lemma TracksNext(bound: set<string>, cols: seq<string>, added: seq<Binding>, h: Binding)
    requires Tracks(bound, cols, added)
    ensures Tracks(bound + {h.col}, cols, added + [h])
  {
    assert Names(added + [h]) == Names(added) + [h.col];
  }

  /** One hook: it binds columns across every row, unless the list or an earlier binding already does. */
  method RunHook(cols: seq<string>, hook: seq<Binding>, bound: set<string>, added: seq<Binding>,
      ghost all: seq<Binding>)
    returns (bound': set<string>, added': seq<Binding>)
    requires Tracks(bound, cols, added) && added == HookBindings(cols, all)
    ensures Tracks(bound', cols, added') && added' == HookBindings(cols, all + hook)
  {
    hide HookBindings, Tracks;
    bound', added' := bound, added;
    assert all + hook[..0] == all;
    for j := 0 to |hook|
      invariant Tracks(bound', cols, added') && added' == HookBindings(cols, all + hook[..j])
    {
      var h := hook[j];
      assert all + hook[..j + 1] == all + hook[..j] + [h];
      HookBindingsSnoc(cols, all + hook[..j], h);
      TracksIn(bound', cols, added', h.col);
      if h.col in bound' {
        continue;
      }
      TracksNext(bound', cols, added', h);
      bound' := bound' + {h.col};
      added' := added' + [h];
    }
    assert hook[..|hook|] == hook;
  }

  lemma TracksIn(bound: set<string>, cols: seq<string>, added: seq<Binding>, c: string)
    requires Tracks(bound, cols, added)
    ensures c in bound <==> c in cols || c in Names(added)
  {
  }

  /** Every hook in turn. */
  method RunHooks(cols: seq<string>, hooks: seq<seq<Binding>>) returns (added: seq<Binding>)
    ensures added == HookBindings(cols, AllBound(hooks))
  {
    var bound := set c | c in cols;
    added := [];
    assert hooks[..0] == [];
    for i := 0 to |hooks|
      invariant Tracks(bound, cols, added) && added == HookBindings(cols, AllBound(hooks[..i]))
    {
      hide HookBindings, Tracks;
      assert hooks[..i + 1][..i] == hooks[..i];
      bound, added := RunHook(cols, hooks[i], bound, added, AllBound(hooks[..i]));
    }
    assert hooks[..|hooks|] == hooks;
  }

  /** All that the hooks bind, hook by hook; one may bind nothing. */
  function AllBound(hooks: seq<seq<Binding>>): seq<Binding> {
    if hooks == [] then [] else AllBound(hooks[..|hooks| - 1]) + hooks[|hooks| - 1]
  }

  function Names(row: Row): (r: seq<string>)
    ensures |r| == |row| && forall i :: 0 <= i < |row| ==> r[i] == row[i].col
  {
    seq(|row|, i requires 0 <= i < |row| => row[i].col)
  }

  // ----------------------------------------------------- statements in the bindings

  /** What resolving an expression for the request gives. */
  datatype Walk = Refuses | Keeps | Becomes(text: string)
  type Resolver = string -> Walk

  /** A statement ends as what the walk made of it; a bound argument and NULL stay as they are. */
  ghost predicate EndsAs(walk: Resolver, v: Value, w: Value) {
    match v
    case Opaque(t) => (match walk(t) case Becomes(u) => w == Opaque(u) case _ => w == v)
    case _ => w == v
  }

  ghost predicate RowEndsAs(walk: Resolver, row: Row, out: Row) {
    && |out| == |row|
    && forall i :: 0 <= i < |row| ==>
         out[i].col == row[i].col && out[i].owner == row[i].owner && EndsAs(walk, row[i].value, out[i].value)
  }

  /** The row holds a statement that cannot be resolved for this request. */
  ghost predicate RowRefused(walk: Resolver, row: Row) {
    exists i :: 0 <= i < |row| && row[i].value.Opaque? && walk(row[i].value.text) == Refuses
  }

  ghost predicate RowChanges(walk: Resolver, row: Row) {
    exists i :: 0 <= i < |row| && row[i].value.Opaque? && walk(row[i].value.text).Becomes?
  }

  /** The row copied and resolved, or None when nothing in it changed. */
  method ResolveRow(walk: Resolver, row: Row) returns (r: Result<Option<Row>, Error>)
    ensures r.Err? ==> r.error == StatementRefused
    ensures r.Err? <==> RowRefused(walk, row)
    ensures r.Ok? ==> (r.value.Some? <==> RowChanges(walk, row))
    ensures r.Ok? ==> RowEndsAs(walk, row, if r.value.Some? then r.value.value else row)
  {
    var out, copied := row, false;
    for i := 0 to |row|
      invariant |out| == |row| && forall j :: i <= j < |row| ==> out[j] == row[j]
      invariant RowEndsAs(walk, row[..i], out[..i]) && !RowRefused(walk, row[..i])
      invariant copied <==> RowChanges(walk, row[..i])
      invariant !copied ==> out == row
    {
      var b := row[i];
      assert row[..i + 1] == row[..i] + [b];
      if !b.value.Opaque? {
        continue;
      }
      var step := walk(b.value.text);
      if step == Refuses {
        return Err(StatementRefused);
      }
      if step.Becomes? {
        out, copied := out[i := b.(value := Opaque(step.text))], true;
      }
    }
    assert row[..|row|] == row && out[..|row|] == out;
    return Ok(if copied then Some(out) else None);
  }

  ghost predicate RowsEndAs(walk: Resolver, rows: seq<Row>, out: seq<Row>) {
    |out| == |rows| && forall i :: 0 <= i < |rows| ==> RowEndsAs(walk, rows[i], out[i])
  }

  ghost predicate SomeRefused(walk: Resolver, rows: seq<Row>) {
    exists i :: 0 <= i < |rows| && RowRefused(walk, rows[i])
  }

  ghost predicate SomeChanges(walk: Resolver, rows: seq<Row>) {
    exists i :: 0 <= i < |rows| && RowChanges(walk, rows[i])
  }

  method ResolveRows(walk: Resolver, rows: seq<Row>) returns (r: Result<(seq<Row>, bool), Error>)
    ensures r.Err? ==> r.error == StatementRefused
    ensures r.Err? <==> SomeRefused(walk, rows)
    ensures r.Ok? ==>
      RowsEndAs(walk, rows, r.value.0) && (r.value.1 <==> SomeChanges(walk, rows)) && (!r.value.1 ==> r.value.0 == rows)
  {
    hide RowRefused, RowChanges, RowEndsAs;
    var out, changed := rows, false;
    for i := 0 to |rows|
      invariant |out| == |rows| && forall j :: i <= j < |rows| ==> out[j] == rows[j]
      invariant forall j :: 0 <= j < i ==> !RowRefused(walk, rows[j]) && RowEndsAs(walk, rows[j], out[j])
      invariant changed <==> exists j :: 0 <= j < i && RowChanges(walk, rows[j])
      invariant !changed ==> out == rows
    {
      var row := ResolveRow(walk, rows[i]);
      if row.Err? {
        return Err(row.error);
      }
      if row.value.Some? {
        out, changed := out[i := row.value.value], true;
      }
    }
    return Ok((out, changed));
  }

  // --------------------------------------------------------------------- stamping

  /** Whether two values name one tenant, as the driver's conversions decide. */
  type SameTenant = (string, string) -> bool

  predicate Agrees(b: Binding, axis: string, tenant: string, same: SameTenant) {
    b.col == axis ==> b.value.Literal? && same(b.value.v, tenant)
  }

  predicate RowAgrees(row: Row, axis: string, tenant: string, same: SameTenant) {
    forall i :: 0 <= i < |row| ==> Agrees(row[i], axis, tenant, same)
  }

  function Stamped(row: Row, axis: string, tenant: string): Row {
    if axis in Names(row) then row else row + [Binding(axis, Literal(tenant), "")]
  }

  /** Every row is stamped or already says the same tenant; one that says another refuses the batch. */
  method StampTenantColumn(tenant: Option<string>, axis: string, rows: seq<Row>, same: SameTenant)
    returns (r: Result<seq<Row>, Error>)
    ensures r.Err? ==> r.error == TenantMissing || r.error == TenantMismatch
    ensures tenant.None? <==> r == Err(TenantMissing)
    ensures tenant.Some? ==>
      && (r == Err(TenantMismatch) <==> !AllAgree(rows, axis, tenant.value, same))
      && (r.Ok? ==> |r.value| == |rows|
                    && forall i :: 0 <= i < |rows| ==> r.value[i] == Stamped(rows[i], axis, tenant.value))
  {
    if tenant.None? {
      return Err(TenantMissing);
    }
    var t := tenant.value;
    var out: seq<Row> := [];
    for i := 0 to |rows|
      invariant |out| == i && forall j :: 0 <= j < i ==> out[j] == Stamped(rows[j], axis, t)
      invariant forall j :: 0 <= j < i ==> RowAgrees(rows[j], axis, t, same)
    {
      var row := rows[i];
      var found := false;
      for c := 0 to |row|
        invariant forall j :: 0 <= j < c ==> Agrees(row[j], axis, t, same)
        invariant found <==> axis in Names(row)[..c]
      {
        assert Names(row)[..c + 1] == Names(row)[..c] + [row[c].col];
        if row[c].col != axis {
          continue;
        }
        found := true;
        if !row[c].value.Literal? || !same(row[c].value.v, t) {
          assert !Agrees(row[c], axis, t, same);
          assert !RowAgrees(rows[i], axis, t, same);
          return Err(TenantMismatch);
        }
      }
      assert Names(row)[..|row|] == Names(row);
      if !found {
        out := out + [row + [Binding(axis, Literal(t), "")]];
        continue;
      }
      out := out + [row];
    }
    return Ok(out);
  }

  // ------------------------------------------------------------------ the statement

  function Widened(cols: seq<string>, axis: string): seq<string> {
    if axis in cols then cols else cols + [axis]
  }

  function HookedCols(cols: seq<string>, added: seq<Binding>): seq<string> {
    cols + Names(added)
  }

  function HookedRows(rows: seq<Row>, added: seq<Binding>): (r: seq<Row>)
    ensures |r| == |rows|
  {
    seq(|rows|, i requires 0 <= i < |rows| => rows[i] + added)
  }

  lemma NoHooks(cols: seq<string>, rows: seq<Row>)
    ensures HookedCols(cols, []) == cols && HookedRows(rows, []) == rows
  {
    forall i | 0 <= i < |rows| ensures HookedRows(rows, [])[i] == rows[i] {
      assert rows[i] + [] == rows[i];
    }
  }

  function Handles(row: Row): (r: seq<Handle>)
    ensures |r| == |row| && forall i :: 0 <= i < |row| ==> r[i] == Handle(row[i].owner, row[i].col)
  {
    seq(|row|, i requires 0 <= i < |row| => Handle(row[i].owner, row[i].col))
  }

  /** The columns of a table, in the order it declares them. */
  function DeclaredBy(declared: map<string, seq<string>>, owner: string): seq<Handle> {
    if owner !in declared then []
    else seq(|declared[owner]|, i requires 0 <= i < |declared[owner]| => Handle(owner, declared[owner][i]))
  }

  lemma DeclaredExact(declared: map<string, seq<string>>, owner: string, h: Handle)
    ensures h in DeclaredBy(declared, owner) <==>
            owner in declared && h.owner == owner && h.name in declared[owner]
  {
    var r := DeclaredBy(declared, owner);
    if owner in declared && h.owner == owner && h.name in declared[owner] {
      var i :| 0 <= i < |declared[owner]| && declared[owner][i] == h.name;
      assert r[i] == h;
    }
  }

  ghost predicate Once(hs: seq<Handle>) {
    forall i, j :: 0 <= i < j < |hs| ==> hs[i] != hs[j]
  }

  function NamesOf(hs: seq<Handle>): (r: seq<string>)
    ensures |r| == |hs| && forall i :: 0 <= i < |hs| ==> r[i] == hs[i].name
  {
    seq(|hs|, i requires 0 <= i < |hs| => hs[i].name)
  }

  /** The columns of a row: those of the first one's table in its declared order, then the rest as they come. */
  method ColumnsOf(declared: map<string, seq<string>>, row: Row) returns (out: seq<Handle>)
    requires row != []
    ensures Once(out) && forall h :: h in out <==> h in Handles(row)
    ensures var list := DeclaredBy(declared, row[0].owner);
      exists n: nat :: n <= |out| && (forall h :: h in out[..n] <==> h in list && h in Handles(row))
                       && forall i, j :: 0 <= i < j < n ==> InTurn(list, out[i], out[j])
  {
    var handles := Handles(row);
    var list := DeclaredBy(declared, row[0].owner);
    hide DeclaredBy;
    var seen := set h | h in handles;
    out := [];
    for i := 0 to |list|
      invariant Once(out) && forall h :: h in out <==> h in list[..i] && h in handles
      invariant seen == (set h | h in handles) - (set h | h in out)
      invariant forall a, b :: 0 <= a < b < |out| ==> InTurn(list, out[a], out[b])
    {
      assert list[..i + 1] == list[..i] + [list[i]];
      if list[i] in seen {
        forall a | 0 <= a < |out| ensures InTurn(list, out[a], list[i]) {
          assert out[a] in list[..i];
          var x :| 0 <= x < i && list[..i][x] == out[a];
          assert list[x] == out[a];
        }
        seen := seen - {list[i]};
        out := out + [list[i]];
      }
    }
    assert list[..|list|] == list;
    var n := |out|;
    ghost var first := out;
    for i := 0 to |handles|
      invariant n <= |out| && out[..n] == first && Once(out)
      invariant seen == (set h | h in handles) - (set h | h in out)
      invariant forall h :: h in out <==> (h in handles && (h in list || h in handles[..i]))
    {
      assert handles[..i + 1] == handles[..i] + [handles[i]];
      if handles[i] in seen {
        seen := seen - {handles[i]};
        out := out + [handles[i]];
      }
    }
    assert handles[..|handles|] == handles;
    assert forall i, j :: 0 <= i < j < n ==> out[i] == first[i] && out[j] == first[j];
  }

  /** a comes before b in the list. */
  ghost predicate InTurn(list: seq<Handle>, a: Handle, b: Handle) {
    exists i, j :: 0 <= i < j < |list| && list[i] == a && list[j] == b
  }

  /** The list names each column once exactly when no name of the row is bound through two handles. */
  lemma NamedOnceIff(row: Row, out: seq<Handle>)
    requires Once(out) && forall h :: h in out <==> h in Handles(row)
    ensures Distinct(NamesOf(out)) <==>
      forall i, j :: 0 <= i < |row| && 0 <= j < |row| && row[i].col == row[j].col ==> row[i].owner == row[j].owner
  {
    if Distinct(NamesOf(out)) {
      forall i, j | 0 <= i < |row| && 0 <= j < |row| && row[i].col == row[j].col ensures row[i].owner == row[j].owner {
        assert Handles(row)[i] in out && Handles(row)[j] in out;
        var x :| 0 <= x < |out| && out[x] == Handles(row)[i];
        var y :| 0 <= y < |out| && out[y] == Handles(row)[j];
        assert NamesOf(out)[x] == NamesOf(out)[y];
      }
    } else {
      var x, y :| 0 <= x < y < |out| && NamesOf(out)[x] == NamesOf(out)[y];
      assert out[x] in Handles(row) && out[y] in Handles(row);
      var i :| 0 <= i < |row| && Handles(row)[i] == out[x];
      var j :| 0 <= j < |row| && Handles(row)[j] == out[y];
    }
  }

  /** One name for every handle the row binds, each handle once. */
  ghost predicate FromRow(row: Row, out: seq<Handle>, cols: seq<string>) {
    Once(out) && (forall h :: h in out <==> h in Handles(row)) && cols == NamesOf(out)
  }

  class InsertBuilder {
    const declared: map<string, seq<string>>
    const axis: Option<string>
    const hooks: seq<seq<Binding>>
    const merges: bool
    const orderBy: seq<string>
    var cols: Option<seq<string>>
    var rows: seq<Row>
    var unscoped: bool
    var hooked: bool
    var resolved: bool

    /** `merges` is an engine that folds rows with one sorting key, which `orderBy` then is. */
    constructor (declared: map<string, seq<string>>, axis: Option<string>, hooks: seq<seq<Binding>>, merges: bool,
                 orderBy: seq<string>)
      ensures cols.None? && rows == [] && !unscoped && !hooked && !resolved
      ensures this.declared == declared && this.axis == axis && this.hooks == hooks
      ensures this.merges == merges && this.orderBy == orderBy
    {
      this.declared, this.axis, this.hooks, this.merges, this.orderBy := declared, axis, hooks, merges, orderBy;
      cols, rows, unscoped, hooked, resolved := None, [], false, false, false;
    }

    /** Appends a row; the first one that binds anything fixes the column list. */
    method Row(row: Row)
      modifies this`cols, this`rows
      ensures rows == old(rows) + [row]
      ensures old(cols).Some? || row == [] ==> cols == old(cols)
      ensures old(cols).None? && row != [] ==> cols.Some? && exists out :: FromRow(row, out, cols.value)
    {
      if cols.None? && row != [] {
        var out := ColumnsOf(declared, row);
        assert FromRow(row, out, NamesOf(out));
        cols := Some(NamesOf(out));
      }
      rows := rows + [row];
    }

    /** Fixes the column list ahead of the rows; a list already fixed stays. */
    method Columns(list: seq<string>)
      modifies this`cols
      ensures cols == if old(cols).Some? then old(cols) else Some(list)
    {
      if cols.None? {
        cols := Some(list);
      }
    }

    method Unscoped()
      modifies this`unscoped
      ensures unscoped
    {
      unscoped := true;
    }

    function Cols(): seq<string>
      reads this
    {
      if cols.None? then [] else cols.value
    }

    /** What the hooks bind, where they have not run yet. */
    function Added(): seq<Binding>
      reads this
    {
      if RunsHooks() then HookBindings(Cols(), AllBound(hooks)) else []
    }

    /** The column list and the rows once the hooks have run. */
    function Listed(): seq<string>
      reads this
    {
      HookedCols(Cols(), Added())
    }

    function Extended(): seq<Row>
      reads this
    {
      HookedRows(rows, Added())
    }

    method Hooked() returns (list: seq<string>, batch: seq<Row>, ran: bool)
      ensures ran <==> RunsHooks()
      ensures list == Listed() && batch == Extended() && (!ran ==> list == Cols() && batch == rows)
    {
      NoHooks(Cols(), rows);
      list, batch, ran := Cols(), rows, false;
      if !hooked && hooks != [] {
        var more := RunHooks(list, hooks);
        ran := true;
        list := list + Names(more);
        batch := [];
        for r := 0 to |rows|
          invariant |batch| == r && forall k :: 0 <= k < r ==> batch[k] == rows[k] + more
        {
          batch := batch + [rows[r] + more];
        }
        assert batch == HookedRows(rows, more);
      }
    }

    /** The tenant's part: the sorting key, the stamp and the widened list. */
    method Scope(list: seq<string>, batch: seq<Row>, tenant: Option<string>, same: SameTenant)
      returns (r: Result<(seq<string>, seq<Row>), Error>)
      requires axis.Some?
      ensures r.Err? ==> r.error in {TenantNotInSortingKey, TenantMissing, TenantMismatch}
      ensures r == Err(TenantNotInSortingKey) <==> FoldsTenants()
      ensures !FoldsTenants() ==>
        && (r == Err(TenantMissing) <==> tenant.None?)
        && (r == Err(TenantMismatch) <==> tenant.Some? && !AllAgree(batch, axis.value, tenant.value, same))
      ensures r.Ok? ==>
        && tenant.Some? && r.value.0 == Widened(list, axis.value) && |r.value.1| == |batch|
        && forall i :: 0 <= i < |batch| ==> r.value.1[i] == Stamped(batch[i], axis.value, tenant.value)
    {
      if merges && axis.value !in orderBy {
        return Err(TenantNotInSortingKey);
      }
      var stamped := StampTenantColumn(tenant, axis.value, batch, same);
      if stamped.Err? {
        return Err(stamped.error);
      }
      return Ok((if axis.value in list then list else list + [axis.value], stamped.value));
    }

    /**
      The builder to render for one context, leaving this one as it is: hooks first, so that what
      they bind is checked like anything else; then the statements in the bindings; then the
      sorting key and the tenant; then the column list, widened whether or not stamping added the
      binding. Resolving what is already resolved changes nothing.
     */
    method ResolveCtx(walk: Resolver, tenant: Option<string>, same: SameTenant)
      returns (r: Result<InsertBuilder, Error>)
      ensures resolved ==> r == Ok(this)
      ensures r.Ok? ==>
        (r.value == this <==> resolved || (!RunsHooks() && !Scoped() && !SomeChanges(walk, Extended())))
      ensures r.Ok? && r.value != this ==> fresh(r.value) && r.value.resolved && !r.value.RunsHooks()
      ensures !resolved ==> (r == Err(StatementRefused) <==> SomeRefused(walk, Extended()))
      ensures !resolved && !SomeRefused(walk, Extended()) && !Scoped() ==>
        r.Ok? && r.value.Cols() == Listed() && RowsEndAs(walk, Extended(), r.value.rows)
      ensures !resolved && !SomeRefused(walk, Extended()) && Scoped() ==>
        && (r == Err(TenantNotInSortingKey) <==> FoldsTenants())
        && (!FoldsTenants() ==>
              && (r == Err(TenantMissing) <==> tenant.None?)
              && (r == Err(TenantMismatch) <==>
                    tenant.Some? && !AllAgree(Extended(), axis.value, tenant.value, same))
              && (r.Ok? ==>
                    && r.value.Cols() == Widened(Listed(), axis.value)
                    && |r.value.rows| == |rows|
                    && forall i :: 0 <= i < |rows| ==>
                         StampedFrom(walk, Extended()[i], axis.value, tenant.value, r.value.rows[i])))
    {
      hide SomeRefused, SomeChanges, RowAgrees, HookedRows, HookedCols, RowEndsAs, HookBindings,
           AllAgree, Stamped, Widened;
      NoHooks(Cols(), rows);
      if resolved {
        return Ok(this);
      }
      var list, batch, changed;
      list, batch, changed := Hooked();
      var walked := ResolveRows(walk, batch);
      if walked.Err? {
        return Err(walked.error);
      }
      batch, changed := walked.value.0, changed || walked.value.1;
      ghost var mid := batch;
      if axis.Some? && !unscoped {
        if tenant.Some? {
          SameAgreement(walk, Extended(), batch, axis.value, tenant.value, same);
        }
        var scoped := Scope(list, batch, tenant, same);
        if scoped.Err? {
          return Err(scoped.error);
        }
        list, batch, changed := scoped.value.0, scoped.value.1, true;
        forall i | 0 <= i < |rows| ensures StampedFrom(walk, Extended()[i], axis.value, tenant.value, batch[i]) {
          assert RowEndsAs(walk, Extended()[i], mid[i]);
        }
      }
      if !changed {
        return Ok(this);
      }
      var cp := CopyWith(list, batch);
      return Ok(cp);
    }

    /** The resolved copy. */
    method CopyWith(list: seq<string>, batch: seq<Row>) returns (cp: InsertBuilder)
      ensures fresh(cp) && cp.resolved && !cp.RunsHooks() && cp.Cols() == list && cp.rows == batch
    {
      cp := new InsertBuilder(declared, axis, hooks, merges, orderBy);
      cp.cols, cp.rows, cp.unscoped, cp.hooked, cp.resolved := Some(list), batch, unscoped, hooked || hooks != [], true;
    }

    /** The engine folds rows by a sorting key that does not tell tenants apart. */
    predicate FoldsTenants()
      reads this
      requires axis.Some?
    {
      merges && axis.value !in orderBy
    }

    /** The table has hooks that this builder has not run yet. */
    predicate RunsHooks()
      reads this
    {
      !hooked && hooks != []
    }

    predicate Scoped()
      reads this
    {
      axis.Some? && !unscoped
    }

    /** The column list and, for every row, the values written under it. */
    method WriteRows() returns (list: seq<string>, out: seq<seq<Value>>)
      ensures list == Listed() && |out| == |rows|
      ensures forall r :: 0 <= r < |rows| ==> out[r] == Sent(list, Extended()[r])
    {
      var batch, ran;
      list, batch, ran := Hooked();
      out := [];
      for r := 0 to |batch|
        invariant |out| == r && forall k :: 0 <= k < r ==> out[k] == Sent(list, batch[k])
      {
        var values := AlignRow(list, batch[r]);
        assert values == Sent(list, batch[r]);
        out := out + [values];
      }
    }

    /**
      A scoped INSERT from builder to values: refused as a whole for want of a tenant or for a row
      of another one; otherwise every row has one value per column, the axis among them holding a
      value of the context's tenant, and every other slot the row's last binding of its name,
      hooks included, or NULL.
     */
    method Insert(walk: Resolver, tenant: Option<string>, same: SameTenant)
      returns (r: Result<(seq<string>, seq<seq<Value>>), Error>)
      requires !resolved && Scoped() && Distinct(Cols()) && (tenant.Some? ==> same(tenant.value, tenant.value))
      ensures r == Err(StatementRefused) <==> SomeRefused(walk, Extended())
      ensures !SomeRefused(walk, Extended()) ==>
        && (r == Err(TenantNotInSortingKey) <==> FoldsTenants())
        && (!FoldsTenants() ==>
              && (r == Err(TenantMissing) <==> tenant.None?)
              && (r == Err(TenantMismatch) <==>
                    tenant.Some? && !AllAgree(Extended(), axis.value, tenant.value, same)))
      ensures r.Ok? ==>
        && r.value.0 == Widened(Listed(), axis.value) && Distinct(r.value.0) && |r.value.1| == |rows|
        && tenant.Some?
        && forall i :: 0 <= i < |rows| ==>
             Belongs(walk, r.value.0, r.value.1[i], rows[i] + Added(), axis.value, tenant.value, same)
    {
      hide SomeRefused, SomeChanges, RowEndsAs, Belongs;
      var resolvedTo := ResolveCtx(walk, tenant, same);
      if resolvedTo.Err? {
        return Err(resolvedTo.error);
      }
      var b := resolvedTo.value;
      var list, out := b.WriteRows();
      NoHooks(b.Cols(), b.rows);
      HookedColumns(Cols(), AllBound(hooks));
      forall i | 0 <= i < |rows|
        ensures Belongs(walk, list, out[i], rows[i] + Added(), axis.value, tenant.value, same)
      {
        assert Extended()[i] == rows[i] + Added() && RowAgrees(Extended()[i], axis.value, tenant.value, same);
        ScopedRowBelongsToTenant(walk, Listed(), Extended()[i], b.rows[i], axis.value, tenant.value, same);
      }
      WidenedDistinct(Listed(), axis.value);
      return Ok((list, out));
    }
  }

  /** What the row came to once its statements were resolved, with the tenant bound where no binding was. */
  ghost predicate StampedFrom(walk: Resolver, row: Row, axis: string, tenant: string, out: Row) {
    exists mid :: RowEndsAs(walk, row, mid) && out == Stamped(mid, axis, tenant)
  }

  /** Resolving a statement never makes it a value a tenant could be read from, nor unmakes one. */
  lemma SameAgreement(walk: Resolver, rows: seq<Row>, out: seq<Row>, axis: string, tenant: string, same: SameTenant)
    requires RowsEndAs(walk, rows, out)
    ensures AllAgree(out, axis, tenant, same) <==> AllAgree(rows, axis, tenant, same)
  {
    forall i | 0 <= i < |rows|
      ensures RowAgrees(out[i], axis, tenant, same) <==> RowAgrees(rows[i], axis, tenant, same)
    {
      assert RowEndsAs(walk, rows[i], out[i]);
      forall j | 0 <= j < |rows[i]|
        ensures Agrees(out[i][j], axis, tenant, same) <==> Agrees(rows[i][j], axis, tenant, same)
      {
      }
    }
  }

  ghost predicate AllAgree(rows: seq<Row>, axis: string, tenant: string, same: SameTenant) {
    forall i :: 0 <= i < |rows| ==> RowAgrees(rows[i], axis, tenant, same)
  }

  /** v is what the row binds to the column last, or NULL where it binds nothing to it. */
  ghost predicate HoldsLast(row: Row, col: string, v: Value) {
    || (v == Null && forall i :: 0 <= i < |row| ==> row[i].col != col)
    || exists i :: 0 <= i < |row| && row[i].col == col && row[i].value == v && LastAt(row, col, i)
  }

  ghost predicate LastAt(row: Row, col: string, i: nat) {
    forall j :: i < j < |row| ==> row[j].col != col
  }

  /** v, resolved for the request, is what the row binds to the column last. */
  ghost predicate SendsLast(walk: Resolver, row: Row, col: string, sent: Value) {
    exists v :: HoldsLast(row, col, v) && EndsAs(walk, v, sent)
  }

  /**
    What was sent for a row under this column list: the tenant under the axis, and under every
    other column what the row binds to it last, its statements resolved.
   */
  ghost predicate Belongs(walk: Resolver, list: seq<string>, sent: seq<Value>, row: Row, axis: string, tenant: string,
      same: SameTenant) {
    && |sent| == |list| && axis in list
    && forall j :: 0 <= j < |list| ==>
         if list[j] == axis then sent[j].Literal? && same(sent[j].v, tenant) else SendsLast(walk, row, list[j], sent[j])
  }

  // ---------------------------------------------------------- what reaches the server

  lemma {:induction false} BoundAgrees(row: Row, axis: string, tenant: string, same: SameTenant)
    requires RowAgrees(row, axis, tenant, same)
    ensures forall i :: 0 <= i < |Bound(row, axis)| ==>
      Bound(row, axis)[i].Literal? && same(Bound(row, axis)[i].v, tenant)
    ensures axis in Names(row) <==> Bound(row, axis) != []
  {
    if row != [] {
      var front := row[..|row| - 1];
      assert RowAgrees(front, axis, tenant, same);
      BoundAgrees(front, axis, tenant, same);
      assert Names(row) == Names(front) + [row[|row| - 1].col];
      assert Agrees(row[|row| - 1], axis, tenant, same);
    }
  }

  lemma BoundAppend(row: Row, b: Binding, k: string)
    ensures Bound(row + [b], k) == if b.col == k then Bound(row, k) + [b.value] else Bound(row, k)
  {
    assert (row + [b])[..|row|] == row;
  }

  /** A stamped row's bindings of the axis all name the tenant, and there is one. */
  lemma StampedNamesTenant(row: Row, axis: string, tenant: string, same: SameTenant)
    requires RowAgrees(row, axis, tenant, same) && same(tenant, tenant)
    ensures var b := Bound(Stamped(row, axis, tenant), axis);
      b != [] && forall i :: 0 <= i < |b| ==> b[i].Literal? && same(b[i].v, tenant)
    ensures forall k :: k != axis ==> Bound(Stamped(row, axis, tenant), k) == Bound(row, k)
  {
    hide Bound;
    BoundAgrees(row, axis, tenant, same);
    if axis !in Names(row) {
      forall k ensures Bound(row + [Binding(axis, Literal(tenant), "")], k) ==
                       if axis == k then Bound(row, k) + [Literal(tenant)] else Bound(row, k) {
        BoundAppend(row, Binding(axis, Literal(tenant), ""), k);
      }
    }
  }

  /** The row as the server gets it. */
  function Sent(cols: seq<string>, row: Row): seq<Value> {
    seq(|cols|, j requires 0 <= j < |cols| => Slot(cols, row, j))
  }

  lemma WidenedDistinct(cols: seq<string>, axis: string)
    requires Distinct(cols)
    ensures Distinct(Widened(cols, axis)) && axis in Widened(cols, axis)
  {
  }

  lemma {:induction false} BoundLast(row: Row, k: string)
    ensures var b := Bound(row, k); HoldsLast(row, k, if b == [] then Null else b[|b| - 1])
  {
    if row != [] {
      var (front, last) := (row[..|row| - 1], row[|row| - 1]);
      BoundLast(front, k);
      if last.col == k {
        assert LastAt(row, k, |row| - 1) && row[|row| - 1].value == last.value;
      } else {
        var b := Bound(front, k);
        var v := if b == [] then Null else b[|b| - 1];
        if i :| 0 <= i < |front| && front[i].col == k && front[i].value == v && LastAt(front, k, i) {
          assert row[i] == front[i] && LastAt(row, k, i);
        }
      }
    }
  }

  /** What a resolved row holds last is what the row held last, resolved. */
  lemma ResolvedLast(walk: Resolver, row: Row, mid: Row, col: string, w: Value)
    requires RowEndsAs(walk, row, mid) && HoldsLast(mid, col, w)
    ensures SendsLast(walk, row, col, w)
  {
    if i :| 0 <= i < |mid| && mid[i].col == col && mid[i].value == w && LastAt(mid, col, i) {
      assert LastAt(row, col, i) && HoldsLast(row, col, row[i].value);
    } else {
      assert HoldsLast(row, col, Null);
    }
  }

  /**
    Every row of a scoped INSERT has one value per column, the axis among them holding a value of
    the context's tenant, and every other slot the row's last binding of its name, resolved, or NULL.
   */
  lemma ScopedRowBelongsToTenant(walk: Resolver, cols: seq<string>, row: Row, out: Row, axis: string, tenant: string,
      same: SameTenant)
    requires Distinct(cols) && RowAgrees(row, axis, tenant, same) && same(tenant, tenant)
    requires StampedFrom(walk, row, axis, tenant, out)
    ensures var wide := Widened(cols, axis); Belongs(walk, wide, Sent(wide, out), row, axis, tenant, same)
  {
    hide Bound, Slot, HoldsLast, SendsLast;
    var mid :| RowEndsAs(walk, row, mid) && out == Stamped(mid, axis, tenant);
    SameAgreement(walk, [row], [mid], axis, tenant, same);
    assert RowAgrees([row][0], axis, tenant, same) && RowAgrees([mid][0], axis, tenant, same);
    var wide := Widened(cols, axis);
    WidenedDistinct(cols, axis);
    hide Widened, Stamped, RowEndsAs, RowAgrees;
    forall j | 0 <= j < |wide| ensures SlotBelongs(walk, row, axis, tenant, same, wide[j], Slot(wide, out, j)) {
      StampedSlot(walk, wide, row, mid, axis, tenant, same, j);
    }
  }

  ghost predicate SlotBelongs(walk: Resolver, row: Row, axis: string, tenant: string, same: SameTenant, col: string,
      sent: Value) {
    if col == axis then sent.Literal? && same(sent.v, tenant) else SendsLast(walk, row, col, sent)
  }

  lemma StampedSlot(walk: Resolver, wide: seq<string>, row: Row, mid: Row, axis: string, tenant: string,
      same: SameTenant, j: nat)
    requires Distinct(wide) && j < |wide| && RowEndsAs(walk, row, mid)
    requires RowAgrees(mid, axis, tenant, same) && same(tenant, tenant)
    ensures SlotBelongs(walk, row, axis, tenant, same, wide[j], Slot(wide, Stamped(mid, axis, tenant), j))
  {
    StampedNamesTenant(mid, axis, tenant, same);
    DistinctSlot(wide, Stamped(mid, axis, tenant), j);
    hide Bound, Slot, HoldsLast, SendsLast, RowEndsAs, RowAgrees, Stamped, Distinct;
    if wide[j] != axis {
      BoundLast(mid, wide[j]);
      ResolvedLast(walk, row, mid, wide[j], Slot(wide, Stamped(mid, axis, tenant), j));
    }
  }

  /** Where a list names a column more than once, a slot is NULL exactly when the row has run out of bindings for it. */
  lemma RepeatedColumn(cols: seq<string>, row: Row, j: nat)
    requires j < |cols| && Null !in Bound(row, cols[j])
    ensures Slot(cols, row, j) == Null <==> Count(cols[..j], cols[j]) >= |Bound(row, cols[j])|
  {
    var q := LastOf(Bound(row, cols[j]), Count(cols, cols[j]));
    CountPrefix(cols, j);
    hide Count, Bound;
    var turn := Count(cols[..j], cols[j]);
    if turn < |q| {
      assert q[turn] in Bound(row, cols[j]);
    }
  }

  lemma {:induction false} CountPrefix(cols: seq<string>, j: nat)
    requires j < |cols|
    ensures Count(cols[..j], cols[j]) < Count(cols, cols[j])
  {
    var front := cols[..|cols| - 1];
    if j < |cols| - 1 {
      CountPrefix(front, j);
      assert front[..j] == cols[..j];
    } else {
      assert front == cols[..j];
    }
  }
}
