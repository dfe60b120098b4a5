/** The builder's cursor methods, and walking a table page by page with them. */
module KeysetPages {
  import opened Wrappers
  import opened ThreeValued
  import opened Keyset

  // ------------------------------------------------------------ a strict total order

  lemma {:induction false} CellsBeforeTotal(terms: seq<Term>, a: seq<Cell>, b: seq<Cell>)
    requires |terms| == |a| == |b|
    ensures CellsBefore(terms, a, b) || CellsBefore(terms, b, a) || a == b
    ensures !(CellsBefore(terms, a, b) && CellsBefore(terms, b, a)) && (a == b ==> !CellsBefore(terms, a, b))
  {
    if terms != [] {
      CellsBeforeTotal(terms[1..], a[1..], b[1..]);
      if a[0] == b[0] && a[1..] == b[1..] {
        assert a == [a[0]] + a[1..] && b == [b[0]] + b[1..];
      }
    }
  }

  lemma {:induction false} CellsBeforeTransitive(terms: seq<Term>, a: seq<Cell>, b: seq<Cell>, c: seq<Cell>)
    requires |terms| == |a| == |b| == |c| && CellsBefore(terms, a, b) && CellsBefore(terms, b, c)
    ensures CellsBefore(terms, a, c)
  {
    if a[0] == b[0] == c[0] && !CellBefore(terms[0], a[0], b[0]) && !CellBefore(terms[0], b[0], c[0]) {
      CellsBeforeTransitive(terms[1..], a[1..], b[1..], c[1..]);
    }
  }

  predicate RowBefore(keys: seq<Key>, a: Row, b: Row) {
    CellsBefore(TermsOf(keys), CellsOf(keys, a), CellsOf(keys, b))
  }

  /** What ORDER BY promises: no row is sorted before one it follows. */
  ghost predicate InOrder(keys: seq<Key>, s: seq<Row>) {
    forall i, j :: 0 <= i < j < |s| ==> !RowBefore(keys, s[j], s[i])
  }

  ghost predicate NoTies(keys: seq<Key>, s: seq<Row>) {
    forall i, j :: 0 <= i < j < |s| ==> CellsOf(keys, s[i]) != CellsOf(keys, s[j])
  }

  /** The last key tells any two rows apart. */
  ghost predicate UniqueLast(keys: seq<Key>, s: seq<Row>) {
    |keys| > 0 && forall i, j :: 0 <= i < j < |s| ==>
      CellOf(s[i], keys[|keys| - 1].col) != CellOf(s[j], keys[|keys| - 1].col)
  }

  lemma UniqueLastNoTies(keys: seq<Key>, s: seq<Row>)
    requires UniqueLast(keys, s)
    ensures NoTies(keys, s)
  {
    forall i, j | 0 <= i < j < |s| ensures CellsOf(keys, s[i]) != CellsOf(keys, s[j]) {
      assert CellsOf(keys, s[i])[|keys| - 1] != CellsOf(keys, s[j])[|keys| - 1];
    }
  }

  // --------------------------------------------------------------------- the builder

  /** A cursor as the client holds it: none, one that does not decode, or one holding values. */
  datatype Cursor = Start | Corrupt | Holds(values: seq<Cell>)
  datatype CursorError = Undecodable | WrongLength

  class Select {
    var orderBys: seq<Term>
    var wheres: seq<Pred>
    var err: Option<CursorError>

    constructor ()
      ensures orderBys == [] && wheres == [] && err == None
    {
      orderBys, wheres, err := [], [], None;
    }

    method OrderByCursor(keys: seq<Key>)
      modifies this`orderBys
      ensures orderBys == old(orderBys) + TermsOf(keys) && |orderBys| == |old(orderBys)| + |keys|
      ensures forall i :: 0 <= i < |keys| ==>
        var t := orderBys[|old(orderBys)| + i];
        && t.col == keys[i].col && t.desc == keys[i].desc
        && (t.nulls == None <==> keys[i].nulls == NullsDefault)
        && (t.nulls == Some(NullsFirstClause) <==> keys[i].nulls == NullsFirst)
    {
      for i := 0 to |keys|
        invariant orderBys == old(orderBys) + TermsOf(keys)[..i]
      {
        orderBys := orderBys + [TermOf(keys[i])];
      }
    }

    /** A cursor that cannot be used leaves an error and a WHERE nothing satisfies. */
    method AfterCursor(keys: seq<Key>, c: Cursor)
      modifies this`wheres, this`err
      ensures match c
        case Start => wheres == old(wheres) && err == old(err)
        case Corrupt => wheres == old(wheres) + [Never] && err == Some(Undecodable)
        case Holds(values) =>
          if |values| != |keys| then wheres == old(wheres) + [Never] && err == Some(WrongLength)
          else wheres == old(wheres) + [Guard(keys, values, true)] && err == old(err)
    {
      Seek(keys, c, true);
    }

    method BeforeCursor(keys: seq<Key>, c: Cursor)
      modifies this`wheres, this`err
      ensures match c
        case Start => wheres == old(wheres) && err == old(err)
        case Corrupt => wheres == old(wheres) + [Never] && err == Some(Undecodable)
        case Holds(values) =>
          if |values| != |keys| then wheres == old(wheres) + [Never] && err == Some(WrongLength)
          else wheres == old(wheres) + [Guard(keys, values, false)] && err == old(err)
    {
      Seek(keys, c, false);
    }

    method Seek(keys: seq<Key>, c: Cursor, forward: bool)
      modifies this`wheres, this`err
      ensures match c
        case Start => wheres == old(wheres) && err == old(err)
        case Corrupt => wheres == old(wheres) + [Never] && err == Some(Undecodable)
        case Holds(values) =>
          if |values| != |keys| then wheres == old(wheres) + [Never] && err == Some(WrongLength)
          else wheres == old(wheres) + [Guard(keys, values, forward)] && err == old(err)
    {
      match c
      case Start =>
      case Corrupt =>
        err := Some(Undecodable);
        wheres := wheres + [Never];
      case Holds(values) =>
        if |values| != |keys| {
          err := Some(WrongLength);
          wheres := wheres + [Never];
        } else {
          var guard := KeysetWhere(keys, values, forward);
          wheres := wheres + [guard];
        }
    }
  }

  // ------------------------------------------------------------- the server's answer

  function CellsAt(terms: seq<Term>, row: Row): seq<Cell> {
    seq(|terms|, i requires 0 <= i < |terms| => CellOf(row, terms[i].col))
  }

  predicate SortsAhead(terms: seq<Term>, a: Row, b: Row) {
    CellsBefore(terms, CellsAt(terms, a), CellsAt(terms, b))
  }

  /** What a list of ORDER BY terms promises: no row comes before one that sorts ahead of it. */
  ghost predicate SortedBy(terms: seq<Term>, s: seq<Row>) {
    forall i, j :: 0 <= i < j < |s| ==> !SortsAhead(terms, s[j], s[i])
  }

  /** The rows a WHERE keeps. */
  function Matching(s: seq<Row>, wheres: seq<Pred>): seq<Row> {
    if s == [] then []
    else if EvalAll(wheres, s[0]) == True then [s[0]] + Matching(s[1..], wheres)
    else Matching(s[1..], wheres)
  }

  /** The rows a query asks for, in some order its ORDER BY allows. */
  ghost predicate Answers(table: seq<Row>, terms: seq<Term>, wheres: seq<Pred>, rows: seq<Row>) {
    multiset(rows) == multiset(Matching(table, wheres)) && SortedBy(terms, rows)
  }

  /** How the n-th query is answered, before its LIMIT; ties may fall differently every time. */
  type Server = (nat, seq<Term>, seq<Pred>) -> seq<Row>

  ghost predicate Lawful(server: Server, table: seq<Row>) {
    forall n, terms, wheres :: Answers(table, terms, wheres, server(n, terms, wheres))
  }

  function Take(s: seq<Row>, n: nat): seq<Row> {
    if |s| <= n then s else s[..n]
  }

  // ------------------------------------------------------------------ after the cursor

  /** The rows of s strictly after the cursor. */
  function Later(keys: seq<Key>, s: seq<Row>, values: seq<Cell>): seq<Row>
    requires |keys| == |values|
  {
    if s == [] then []
    else if Beyond(keys, values, s[0], true) then [s[0]] + Later(keys, s[1..], values)
    else Later(keys, s[1..], values)
  }

  ghost predicate AllFit(keys: seq<Key>, s: seq<Row>) {
    forall i :: 0 <= i < |s| ==> Fits(keys, s[i])
  }

  /** What a page query returns is what comes after its cursor. */
  lemma {:induction false} GuardSelectsLater(keys: seq<Key>, s: seq<Row>, values: seq<Cell>)
    requires |keys| == |values| && AllFit(keys, s)
    ensures Matching(s, [Guard(keys, values, true)]) == Later(keys, s, values)
  {
    hide Guard, Beyond, Fits;
    if s != [] {
      GuardExact(keys, values, true, s[0]);
      AllOfSnoc([], Guard(keys, values, true), s[0]);
      assert [] + [Guard(keys, values, true)] == [Guard(keys, values, true)];
      assert AllFit(keys, s[1..]);
      GuardSelectsLater(keys, s[1..], values);
    }
  }

  lemma {:induction false} NoGuardSelectsAll(s: seq<Row>)
    ensures Matching(s, []) == s
  {
    if s != [] {
      NoGuardSelectsAll(s[1..]);
    }
  }

  lemma {:induction false} LaterFound(keys: seq<Key>, s: seq<Row>, values: seq<Cell>)
    requires |keys| == |values|
    ensures |Later(keys, s, values)| <= |s|
    ensures forall i :: 0 <= i < |Later(keys, s, values)| ==> Beyond(keys, values, Later(keys, s, values)[i], true)
  {
    hide Beyond;
    if s != [] {
      LaterFound(keys, s[1..], values);
    }
  }

  /** Moving the cursor onto a later row leaves strictly fewer rows ahead. */
  lemma {:induction false} LaterShrinks(keys: seq<Key>, s: seq<Row>, values: seq<Cell>, row: Row, strict: bool)
    requires |keys| == |values| && Beyond(keys, values, row, true)
    requires strict ==> row in Later(keys, s, values)
    ensures |Later(keys, s, CellsOf(keys, row))| <= |Later(keys, s, values)|
    ensures strict ==> |Later(keys, s, CellsOf(keys, row))| < |Later(keys, s, values)|
  {
    if s != [] {
      var (terms, cells) := (TermsOf(keys), CellsOf(keys, row));
      if Beyond(keys, cells, s[0], true) {
        CellsBeforeTransitive(terms, values, cells, CellsOf(keys, s[0]));
      }
      CellsBeforeTotal(terms, cells, CellsOf(keys, s[0]));
      hide CellsBefore, CellsOf, TermsOf;
      LaterShrinks(keys, s[1..], values, row, strict && row in Later(keys, s[1..], values));
    }
  }

  /** How often a row comes after the cursor. */
  lemma {:induction false} LaterCount(keys: seq<Key>, s: seq<Row>, values: seq<Cell>, r: Row)
    requires |keys| == |values|
    ensures multiset(Later(keys, s, values))[r] == if Beyond(keys, values, r, true) then multiset(s)[r] else 0
  {
    hide Beyond;
    if s != [] {
      LaterCount(keys, s[1..], values, r);
      assert s == [s[0]] + s[1..];
    }
  }

  lemma {:induction false} LaterOfConcat(keys: seq<Key>, a: seq<Row>, b: seq<Row>, values: seq<Cell>)
    requires |keys| == |values|
    requires forall i :: 0 <= i < |a| ==> !Beyond(keys, values, a[i], true)
    requires forall i :: 0 <= i < |b| ==> Beyond(keys, values, b[i], true)
    ensures Later(keys, a + b, values) == b
  {
    hide Beyond;
    if a != [] {
      assert (a + b)[1..] == a[1..] + b && (a + b)[0] == a[0];
      assert forall i :: 0 <= i < |a[1..]| ==> a[1..][i] == a[i + 1];
      LaterOfConcat(keys, a[1..], b, values);
    } else if b != [] {
      assert a + b == b;
      assert forall i :: 0 <= i < |b[1..]| ==> b[1..][i] == b[i + 1];
      assert [] + b[1..] == b[1..];
      LaterOfConcat(keys, [], b[1..], values);
    } else {
      assert a + b == [];
    }
  }

  /** Without ties, what follows the k-th row is the rest of the table. */
  lemma LaterIsSuffix(keys: seq<Key>, s: seq<Row>, k: nat)
    requires InOrder(keys, s) && NoTies(keys, s) && 0 < k <= |s|
    ensures Later(keys, s, CellsOf(keys, s[k - 1])) == s[k..]
  {
    var cells := CellsOf(keys, s[k - 1]);
    forall i | 0 <= i < |s| ensures Beyond(keys, cells, s[i], true) <==> k <= i {
      CellsBeforeTotal(TermsOf(keys), cells, CellsOf(keys, s[i]));
      if i < k - 1 {
        assert !RowBefore(keys, s[k - 1], s[i]);
      } else if i >= k {
        assert !RowBefore(keys, s[i], s[k - 1]) && CellsOf(keys, s[k - 1]) != CellsOf(keys, s[i]);
      }
      hide CellsBefore;
    }
    hide Beyond, InOrder, NoTies;
    assert s[..k] + s[k..] == s;
    LaterOfConcat(keys, s[..k], s[k..], cells);
  }

  // ------------------------------------------------------------------------ the walk

  /** A cursor, if any, with one value per key. */
  predicate Shaped(keys: seq<Key>, at: Option<seq<Cell>>) {
    at.Some? ==> |at.value| == |keys|
  }

  function WheresAt(keys: seq<Key>, at: Option<seq<Cell>>): seq<Pred>
    requires Shaped(keys, at)
  {
    match at
    case None => []
    case Some(values) => [Guard(keys, values, true)]
  }

  /** What is left of the table after the cursor. */
  ghost function Rest(keys: seq<Key>, table: seq<Row>, at: Option<seq<Cell>>): seq<Row>
    requires Shaped(keys, at)
  {
    match at
    case None => table
    case Some(values) => Later(keys, table, values)
  }

  ghost predicate Walkable(server: Server, keys: seq<Key>, table: seq<Row>) {
    Lawful(server, table) && AllFit(keys, table)
  }

  function Answer(server: Server, keys: seq<Key>, n: nat, at: Option<seq<Cell>>): seq<Row>
    requires Shaped(keys, at)
  {
    server(n, TermsOf(keys), WheresAt(keys, at))
  }

  /** An answer is what is left of the table, in the order of the keys. */
  lemma AnswerMeans(server: Server, keys: seq<Key>, table: seq<Row>, n: nat, at: Option<seq<Cell>>)
    requires Walkable(server, keys, table) && Shaped(keys, at)
    ensures var rows := Answer(server, keys, n, at);
      multiset(rows) == multiset(Rest(keys, table, at)) && InOrder(keys, rows)
  {
    var rows := Answer(server, keys, n, at);
    assert Answers(table, TermsOf(keys), WheresAt(keys, at), rows);
    if at.None? {
      NoGuardSelectsAll(table);
    } else {
      GuardSelectsLater(keys, table, at.value);
    }
    hide CellsBefore, Matching;
    forall r: Row ensures CellsAt(TermsOf(keys), r) == CellsOf(keys, r) {
    }
  }

  ghost function Ahead(keys: seq<Key>, table: seq<Row>, at: Option<seq<Cell>>): nat
    requires Shaped(keys, at)
  {
    if at.None? then |table| + 1 else |Later(keys, table, at.value)|
  }

  lemma PageAdvances(server: Server, keys: seq<Key>, table: seq<Row>, n: nat, at: Option<seq<Cell>>, limit: nat)
    requires Walkable(server, keys, table) && Shaped(keys, at)
    ensures var page := Take(Answer(server, keys, n, at), limit);
      page != [] ==> Ahead(keys, table, Some(CellsOf(keys, page[|page| - 1]))) < Ahead(keys, table, at)
  {
    var page := Take(Answer(server, keys, n, at), limit);
    if page != [] {
      hide Beyond, Answer, Walkable;
      AnswerMeans(server, keys, table, n, at);
      var last := page[|page| - 1];
      assert last in multiset(Answer(server, keys, n, at));
      if at.None? {
        LaterFound(keys, table, CellsOf(keys, last));
      } else {
        assert last in Later(keys, table, at.value);
        LaterFound(keys, table, at.value);
        LaterShrinks(keys, table, at.value, last, true);
      }
    }
  }

  /** Page after page until one comes back empty. */
  ghost function Walked(server: Server, keys: seq<Key>, table: seq<Row>, limit: nat, n: nat,
      at: Option<seq<Cell>>): seq<Row>
    requires Walkable(server, keys, table) && Shaped(keys, at)
    decreases Ahead(keys, table, at)
  {
    var page := Take(Answer(server, keys, n, at), limit);
    if page == [] then []
    else
      PageAdvances(server, keys, table, n, at, limit);
      page + Walked(server, keys, table, limit, n + 1, Some(CellsOf(keys, page[|page| - 1])))
  }

  lemma WalkStep(server: Server, keys: seq<Key>, table: seq<Row>, limit: nat, n: nat, at: Option<seq<Cell>>)
    requires Walkable(server, keys, table) && Shaped(keys, at)
    ensures var (page, w) := (Take(Answer(server, keys, n, at), limit), Walked(server, keys, table, limit, n, at));
      if page == [] then w == []
      else w == page + Walked(server, keys, table, limit, n + 1, Some(CellsOf(keys, page[|page| - 1])))
  {
    hide Walkable, Answer, Take;
  }

  /** A client paging through the builder: it sees each page and never the table. */
  method WalkPages(server: Server, keys: seq<Key>, ghost table: seq<Row>, limit: nat) returns (out: seq<Row>)
    requires Lawful(server, table) && AllFit(keys, table)
    ensures out == Walked(server, keys, table, limit, 0, None)
    ensures InOrder(keys, out) && multiset(out) <= multiset(table)
    ensures (NoTies(keys, table) || UniqueLast(keys, table)) && limit > 0 ==> multiset(out) == multiset(table)
  {
    hide Guard, Take, TermsOf, AllFit, Lawful, InOrder, NoTies, UniqueLast, Answer, Ahead;
    out := [];
    var n := 0;
    ghost var at: Option<seq<Cell>> := None;
    var cursor := Start;
    while true
      invariant Shaped(keys, at)
      invariant cursor == match at case None => Start case Some(values) => Holds(values)
      invariant out + Walked(server, keys, table, limit, n, at) == Walked(server, keys, table, limit, 0, None)
      decreases Ahead(keys, table, at)
    {
      var query := new Select();
      query.OrderByCursor(keys);
      query.AfterCursor(keys, cursor);
      var page := Take(server(n, query.orderBys, query.wheres), limit);
      AnswerIs(server, keys, n, at, query.orderBys, query.wheres);
      PageAdvances(server, keys, table, n, at, limit);
      if |page| == 0 {
        break;
      }
      out := out + page;
      n := n + 1;
      at := Some(CellsOf(keys, page[|page| - 1]));
      cursor := Holds(CellsOf(keys, page[|page| - 1]));
    }
    WalkSound(server, keys, table, limit, 0, None);
    if UniqueLast(keys, table) {
      UniqueLastNoTies(keys, table);
    }
    if NoTies(keys, table) && limit > 0 {
      WalkComplete(server, keys, table, limit, 0, None);
    }
  }

  lemma AnswerIs(server: Server, keys: seq<Key>, n: nat, at: Option<seq<Cell>>, orderBys: seq<Term>, wheres: seq<Pred>)
    requires Shaped(keys, at)
    requires orderBys == [] + TermsOf(keys) && wheres == if at.None? then [] else [] + [Guard(keys, at.value, true)]
    ensures server(n, orderBys, wheres) == Answer(server, keys, n, at)
  {
    hide TermsOf, Guard;
    assert orderBys == TermsOf(keys) && wheres == WheresAt(keys, at);
  }

  // -------------------------------------------------------------- what a walk returns

  /** Nothing on a page comes strictly after its last row. */
  lemma PageNotBeyond(keys: seq<Key>, rows: seq<Row>, m: nat, i: nat)
    requires InOrder(keys, rows) && 0 < m <= |rows| && i < m
    ensures !Beyond(keys, CellsOf(keys, rows[m - 1]), rows[i], true)
  {
    var cells := CellsOf(keys, rows[m - 1]);
    if i < m - 1 {
      assert !RowBefore(keys, rows[m - 1], rows[i]);
    } else {
      CellsBeforeTotal(TermsOf(keys), cells, cells);
    }
  }

  /** A row of the page and one strictly after its last: in order. */
  lemma LaterInOrder(keys: seq<Key>, a: Row, last: Row, b: Row)
    requires !Beyond(keys, CellsOf(keys, last), a, true) && Beyond(keys, CellsOf(keys, last), b, true)
    ensures !RowBefore(keys, b, a)
  {
    var (terms, x, y, z) := (TermsOf(keys), CellsOf(keys, a), CellsOf(keys, last), CellsOf(keys, b));
    hide CellsBefore;
    if CellsBefore(terms, z, x) {
      CellsBeforeTransitive(terms, y, z, x);
    }
  }

  lemma InOrderConcat(keys: seq<Key>, a: seq<Row>, b: seq<Row>)
    requires InOrder(keys, a) && InOrder(keys, b)
    requires forall i, j :: 0 <= i < |a| && 0 <= j < |b| ==> !RowBefore(keys, b[j], a[i])
    ensures InOrder(keys, a + b)
  {
    hide RowBefore;
    forall i, j | 0 <= i < j < |a + b| ensures !RowBefore(keys, (a + b)[j], (a + b)[i]) {
      assert (a + b)[i] == if i < |a| then a[i] else b[i - |a|];
      assert (a + b)[j] == if j < |a| then a[j] else b[j - |a|];
    }
  }

  lemma PrefixInOrder(keys: seq<Key>, rows: seq<Row>, m: nat)
    requires InOrder(keys, rows) && m <= |rows|
    ensures InOrder(keys, rows[..m])
  {
    hide RowBefore;
  }

  ghost predicate AllBeyond(keys: seq<Key>, at: Option<seq<Cell>>, s: seq<Row>)
    requires Shaped(keys, at)
  {
    at.Some? ==> forall i :: 0 <= i < |s| ==> Beyond(keys, at.value, s[i], true)
  }

  lemma RestBeyond(keys: seq<Key>, table: seq<Row>, at: Option<seq<Cell>>, rows: seq<Row>)
    requires Shaped(keys, at) && multiset(rows) <= multiset(Rest(keys, table, at))
    ensures AllBeyond(keys, at, rows)
  {
    hide Beyond, Later;
    if at.Some? {
      LaterFound(keys, table, at.value);
      forall i | 0 <= i < |rows| ensures Beyond(keys, at.value, rows[i], true) {
        assert rows[i] in multiset(rows);
        assert rows[i] in Later(keys, table, at.value);
      }
    }
  }

  /** Of the table, a page and what comes after it are never more than is left. */
  lemma PageAndLater(keys: seq<Key>, table: seq<Row>, at: Option<seq<Cell>>, rows: seq<Row>, m: nat)
    requires Shaped(keys, at) && multiset(rows) == multiset(Rest(keys, table, at))
    requires InOrder(keys, rows) && 0 < m <= |rows|
    ensures multiset(rows[..m]) + multiset(Later(keys, table, CellsOf(keys, rows[m - 1]))) <= multiset(rows)
  {
    var cells := CellsOf(keys, rows[m - 1]);
    assert rows == rows[..m] + rows[m..];
    RestBeyond(keys, table, at, rows);
    forall r: Row
      ensures multiset(rows[..m])[r] + multiset(Later(keys, table, cells))[r] <= multiset(rows)[r]
    {
      LaterCount(keys, table, cells, r);
      if Beyond(keys, cells, r, true) {
        if r in rows[..m] {
          var i :| 0 <= i < m && rows[i] == r;
          PageNotBeyond(keys, rows, m, i);
        }
        if at.Some? {
          LaterCount(keys, table, at.value, r);
          CellsBeforeTransitive(TermsOf(keys), at.value, cells, CellsOf(keys, r));
        }
      }
    }
  }

  lemma NothingInOrder(keys: seq<Key>)
    ensures InOrder(keys, [])
  {
  }

  lemma CellsFit(keys: seq<Key>, row: Row)
    ensures Shaped(keys, Some(CellsOf(keys, row)))
  {
  }

  /** In the order of the keys, nothing twice, nothing that is not in the table. */
  lemma {:induction false} WalkSound(server: Server, keys: seq<Key>, table: seq<Row>, limit: nat, n: nat,
      at: Option<seq<Cell>>)
    requires Walkable(server, keys, table) && Shaped(keys, at)
    ensures var w := Walked(server, keys, table, limit, n, at);
      InOrder(keys, w) && multiset(w) <= multiset(Rest(keys, table, at))
    decreases Ahead(keys, table, at)
  {
    hide Later, Beyond, Walkable, RowBefore, Answer, Walked, InOrder, Ahead, CellsOf;
    var rows := Answer(server, keys, n, at);
    var page := Take(rows, limit);
    AnswerMeans(server, keys, table, n, at);
    WalkStep(server, keys, table, limit, n, at);
    if page == [] {
      NothingInOrder(keys);
    } else {
      var (m, last) := (|page|, page[|page| - 1]);
      var next := Some(CellsOf(keys, last));
      CellsFit(keys, last);
      PageAdvances(server, keys, table, n, at, limit);
      WalkSound(server, keys, table, limit, n + 1, next);
      var more := Walked(server, keys, table, limit, n + 1, next);
      assert page == rows[..m];
      PageAndLater(keys, table, at, rows, m);
      RestBeyond(keys, table, next, more);
      PrefixInOrder(keys, rows, m);
      forall i, j | 0 <= i < m && 0 <= j < |more| ensures !RowBefore(keys, more[j], page[i]) {
        PageNotBeyond(keys, rows, m, i);
        LaterInOrder(keys, page[i], last, more[j]);
      }
      InOrderConcat(keys, page, more);
    }
  }

  // ------------------------------------------------------------- when it misses nothing

  /** No row twice, and no two rows that agree on every key. */
  ghost predicate NoTiesIn(keys: seq<Key>, bag: multiset<Row>) {
    && (forall r :: r in bag ==> bag[r] == 1)
    && (forall r, q :: r in bag && q in bag && r != q ==> CellsOf(keys, r) != CellsOf(keys, q))
  }

  lemma NoTiesBag(keys: seq<Key>, s: seq<Row>)
    ensures NoTies(keys, s) <==> NoTiesIn(keys, multiset(s))
  {
    hide CellsOf;
    if NoTies(keys, s) {
      OnceEach(keys, s);
      forall r, q | r in multiset(s) && q in multiset(s) && r != q ensures CellsOf(keys, r) != CellsOf(keys, q) {
        TiesNot(keys, s, r, q);
      }
    } else {
      var i, j :| 0 <= i < j < |s| && CellsOf(keys, s[i]) == CellsOf(keys, s[j]);
      if s[i] == s[j] {
        TwiceCounts(s, i, j);
      }
    }
  }

  lemma TiesNot(keys: seq<Key>, s: seq<Row>, r: Row, q: Row)
    requires NoTies(keys, s) && r in s && q in s && r != q
    ensures CellsOf(keys, r) != CellsOf(keys, q)
  {
    hide CellsOf;
    var i :| 0 <= i < |s| && s[i] == r;
    var j :| 0 <= j < |s| && s[j] == q;
  }

  lemma TwiceCounts(s: seq<Row>, i: nat, j: nat)
    requires i < j < |s| && s[i] == s[j]
    ensures multiset(s)[s[i]] >= 2
  {
    assert s == s[..j] + s[j..];
    assert s[i] == s[..j][i] && s[j] == s[j..][0];
    assert multiset(s)[s[i]] == multiset(s[..j])[s[i]] + multiset(s[j..])[s[i]];
  }

  lemma {:induction false} OnceEach(keys: seq<Key>, s: seq<Row>)
    requires NoTies(keys, s)
    ensures forall r :: r in multiset(s) ==> multiset(s)[r] == 1
  {
    if s != [] {
      OnceEach(keys, s[1..]);
      assert s == [s[0]] + s[1..];
      assert s[0] !in s[1..];
    }
  }

  lemma NoTiesAmongFewer(keys: seq<Key>, s: seq<Row>, t: seq<Row>)
    requires NoTies(keys, s) && multiset(t) <= multiset(s)
    ensures NoTies(keys, t)
  {
    NoTiesBag(keys, s);
    NoTiesBag(keys, t);
    hide NoTies;
  }

  lemma LaterWithin(keys: seq<Key>, table: seq<Row>, at: Option<seq<Cell>>)
    requires Shaped(keys, at)
    ensures multiset(Rest(keys, table, at)) <= multiset(table)
  {
    if at.Some? {
      forall r: Row ensures multiset(Later(keys, table, at.value))[r] <= multiset(table)[r] {
        LaterCount(keys, table, at.value, r);
      }
    }
  }

  /** Without ties, what comes after the m-th row of an answer is exactly what the answer has left. */
  lemma LaterIsLeft(keys: seq<Key>, table: seq<Row>, at: Option<seq<Cell>>, rows: seq<Row>, m: nat)
    requires Shaped(keys, at) && multiset(rows) == multiset(Rest(keys, table, at))
    requires InOrder(keys, rows) && NoTies(keys, rows) && 0 < m <= |rows|
    ensures multiset(Later(keys, table, CellsOf(keys, rows[m - 1]))) == multiset(rows[m..])
  {
    var cells := CellsOf(keys, rows[m - 1]);
    LaterIsSuffix(keys, rows, m);
    RestBeyond(keys, table, at, rows);
    forall r: Row ensures multiset(Later(keys, table, cells))[r] == multiset(rows[m..])[r] {
      LaterCount(keys, table, cells, r);
      LaterCount(keys, rows, cells, r);
      if at.Some? {
        LaterCount(keys, table, at.value, r);
        if Beyond(keys, cells, r, true) {
          CellsBeforeTransitive(TermsOf(keys), at.value, cells, CellsOf(keys, r));
        }
      }
    }
  }

  lemma {:induction false} WalkComplete(server: Server, keys: seq<Key>, table: seq<Row>, limit: nat, n: nat,
      at: Option<seq<Cell>>)
    requires Walkable(server, keys, table) && Shaped(keys, at) && NoTies(keys, table) && limit > 0
    ensures multiset(Walked(server, keys, table, limit, n, at)) == multiset(Rest(keys, table, at))
    decreases Ahead(keys, table, at)
  {
    hide Later, Walkable, InOrder, NoTies, Answer, Walked, Ahead, CellsOf;
    var rows := Answer(server, keys, n, at);
    var page := Take(rows, limit);
    AnswerMeans(server, keys, table, n, at);
    WalkStep(server, keys, table, limit, n, at);
    if page == [] {
      assert rows == [];
    } else {
      var m := |page|;
      var next := Some(CellsOf(keys, page[m - 1]));
      CellsFit(keys, page[m - 1]);
      PageAdvances(server, keys, table, n, at, limit);
      WalkComplete(server, keys, table, limit, n + 1, next);
      LaterWithin(keys, table, at);
      NoTiesAmongFewer(keys, table, rows);
      assert page == rows[..m] && rows == rows[..m] + rows[m..];
      LaterIsLeft(keys, table, at, rows, m);
    }
  }

  ghost predicate Ascending(keys: seq<Key>, w: seq<Row>) {
    forall i, j :: 0 <= i < |w| && j == i + 1 && j < |w| ==> RowBefore(keys, w[i], w[j])
  }

  /** A walk row by row never returns two rows that tie. */
  lemma {:induction false} WalkByOne(server: Server, keys: seq<Key>, table: seq<Row>, n: nat, at: Option<seq<Cell>>)
    requires Walkable(server, keys, table) && Shaped(keys, at)
    ensures Ascending(keys, Walked(server, keys, table, 1, n, at))
    decreases Ahead(keys, table, at)
  {
    hide Later, Walkable, Answer, Walked, Ahead, CellsOf, CellsBefore, InOrder;
    var page := Take(Answer(server, keys, n, at), 1);
    WalkStep(server, keys, table, 1, n, at);
    if page != [] {
      var next := Some(CellsOf(keys, page[0]));
      CellsFit(keys, page[0]);
      PageAdvances(server, keys, table, n, at, 1);
      WalkByOne(server, keys, table, n + 1, next);
      WalkSound(server, keys, table, 1, n + 1, next);
      var more := Walked(server, keys, table, 1, n + 1, next);
      RestBeyond(keys, table, next, more);
      assert |more| > 0 ==> RowBefore(keys, page[0], more[0]);
    }
  }

  lemma {:induction false} StepsCompose(keys: seq<Key>, w: seq<Row>, i: nat, j: nat)
    requires i < j < |w| && Ascending(keys, w)
    ensures RowBefore(keys, w[i], w[j])
    decreases j
  {
    if i < j - 1 {
      StepsCompose(keys, w, i, j - 1);
      assert RowBefore(keys, w[j - 1], w[j]);
      hide CellsBefore;
      CellsBeforeTransitive(TermsOf(keys), CellsOf(keys, w[i]), CellsOf(keys, w[j - 1]), CellsOf(keys, w[j]));
    }
  }

  /** Whatever the server does and however large the pages, they add up to the table. */
  ghost predicate AlwaysComplete(keys: seq<Key>, table: seq<Row>)
    requires AllFit(keys, table)
  {
    forall server: Server, limit: nat :: Lawful(server, table) && limit > 0 ==>
      multiset(Walked(server, keys, table, limit, 0, None)) == multiset(table)
  }

  /** Every lawful server and page size returns every row exactly once if and only if no two rows tie. */
  lemma WalkExact(keys: seq<Key>, table: seq<Row>)
    requires AllFit(keys, table)
    ensures AlwaysComplete(keys, table) <==> NoTies(keys, table)
  {
    hide NoTies, Walked, Lawful, AllFit;
    if NoTies(keys, table) {
      forall server: Server, limit: nat | Lawful(server, table) && limit > 0
        ensures multiset(Walked(server, keys, table, limit, 0, None)) == multiset(table)
      {
        WalkComplete(server, keys, table, limit, 0, None);
      }
    } else if AlwaysComplete(keys, table) {
      var server: Server := (_, terms, wheres) => SortRows(terms, Matching(table, wheres));
      forall n, terms, wheres ensures Answers(table, terms, wheres, server(n, terms, wheres)) {
        SortRowsSorts(terms, Matching(table, wheres));
      }
      assert Lawful(server, table) by { LawfulIs(server, table); }
      ByOneNoTies(server, keys, table);
    }
  }

  lemma LawfulIs(server: Server, table: seq<Row>)
    requires forall n, terms, wheres :: Answers(table, terms, wheres, server(n, terms, wheres))
    ensures Lawful(server, table)
  {
  }

  lemma ByOneNoTies(server: Server, keys: seq<Key>, table: seq<Row>)
    requires Lawful(server, table) && AllFit(keys, table)
    requires multiset(Walked(server, keys, table, 1, 0, None)) == multiset(table)
    ensures NoTies(keys, table)
  {
    var w := Walked(server, keys, table, 1, 0, None);
    WalkByOne(server, keys, table, 0, None);
    hide Walked, Lawful;
    forall i, j | 0 <= i < j < |w| ensures CellsOf(keys, w[i]) != CellsOf(keys, w[j]) {
      StepsCompose(keys, w, i, j);
      CellsBeforeTotal(TermsOf(keys), CellsOf(keys, w[i]), CellsOf(keys, w[j]));
    }
    NoTiesAmongFewer(keys, w, table);
  }

  // ------------------------------------------------------------ that such a server exists

  function InsertRow(terms: seq<Term>, r: Row, s: seq<Row>): seq<Row> {
    if s == [] || !SortsAhead(terms, s[0], r) then [r] + s
    else [s[0]] + InsertRow(terms, r, s[1..])
  }

  function SortRows(terms: seq<Term>, s: seq<Row>): seq<Row> {
    if s == [] then [] else InsertRow(terms, s[0], SortRows(terms, s[1..]))
  }

  /** A row that nothing sorts ahead of may come first. */
  lemma SortedCons(terms: seq<Term>, r: Row, s: seq<Row>)
    requires SortedBy(terms, s)
    requires forall j :: 0 <= j < |s| ==> !SortsAhead(terms, s[j], r)
    ensures SortedBy(terms, [r] + s)
  {
    hide SortsAhead;
    assert forall j :: 0 < j < |[r] + s| ==> ([r] + s)[j] == s[j - 1];
  }

  lemma {:induction false} InsertKeeps(terms: seq<Term>, r: Row, s: seq<Row>)
    ensures multiset(InsertRow(terms, r, s)) == multiset(s) + multiset{r}
  {
    hide SortsAhead;
    if s != [] && SortsAhead(terms, s[0], r) {
      InsertKeeps(terms, r, s[1..]);
      assert s == [s[0]] + s[1..];
    }
  }

  lemma {:induction false} InsertSorts(terms: seq<Term>, r: Row, s: seq<Row>)
    requires SortedBy(terms, s)
    ensures SortedBy(terms, InsertRow(terms, r, s))
  {
    hide SortsAhead;
    if s == [] || !SortsAhead(terms, s[0], r) {
      forall j | 0 <= j < |s| ensures !SortsAhead(terms, s[j], r) {
        NotAhead(terms, r, s[0], s[j]);
      }
      SortedCons(terms, r, s);
    } else {
      var rest := InsertRow(terms, r, s[1..]);
      InsertSorts(terms, r, s[1..]);
      InsertAfter(terms, r, s, rest);
      hide SortedBy;
      SortedCons(terms, s[0], rest);
    }
  }

  lemma InsertAfter(terms: seq<Term>, r: Row, s: seq<Row>, rest: seq<Row>)
    requires s != [] && SortedBy(terms, s) && SortsAhead(terms, s[0], r) && rest == InsertRow(terms, r, s[1..])
    ensures forall j :: 0 <= j < |rest| ==> !SortsAhead(terms, rest[j], s[0])
  {
    InsertKeeps(terms, r, s[1..]);
    RowOnce(terms, s[0], r);
    hide SortsAhead, InsertRow;
    forall j | 0 <= j < |rest| ensures !SortsAhead(terms, rest[j], s[0]) {
      assert rest[j] in multiset(rest);
      if rest[j] != r {
        assert rest[j] in s[1..];
        var k :| 0 < k < |s| && s[k] == rest[j];
      }
    }
  }

  lemma RowOnce(terms: seq<Term>, a: Row, b: Row)
    ensures !(SortsAhead(terms, a, b) && SortsAhead(terms, b, a))
  {
    CellsBeforeTotal(terms, CellsAt(terms, a), CellsAt(terms, b));
  }

  lemma NotAhead(terms: seq<Term>, r: Row, first: Row, q: Row)
    requires !SortsAhead(terms, first, r)
    requires first == q || !SortsAhead(terms, q, first)
    ensures !SortsAhead(terms, q, r)
  {
    NotBefore(terms, CellsAt(terms, r), CellsAt(terms, first), CellsAt(terms, q));
  }

  /** Not after and not after: not after. */
  lemma NotBefore(terms: seq<Term>, a: seq<Cell>, b: seq<Cell>, c: seq<Cell>)
    requires |terms| == |a| == |b| == |c| && !CellsBefore(terms, b, a) && (b == c || !CellsBefore(terms, c, b))
    ensures !CellsBefore(terms, c, a)
  {
    hide CellsBefore;
    CellsBeforeTotal(terms, a, b);
    CellsBeforeTotal(terms, b, c);
    CellsBeforeTotal(terms, a, c);
    if CellsBefore(terms, a, b) && CellsBefore(terms, b, c) {
      CellsBeforeTransitive(terms, a, b, c);
    }
  }

  lemma {:induction false} SortRowsSorts(terms: seq<Term>, s: seq<Row>)
    ensures SortedBy(terms, SortRows(terms, s)) && multiset(SortRows(terms, s)) == multiset(s)
  {
    if s != [] {
      SortRowsSorts(terms, s[1..]);
      InsertSorts(terms, s[0], SortRows(terms, s[1..]));
      InsertKeeps(terms, s[0], SortRows(terms, s[1..]));
      assert s == [s[0]] + s[1..];
    }
  }
}
