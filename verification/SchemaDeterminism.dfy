/** When the statements of a plan are a function of the live table and the declaration. */
module SchemaDeterminism {
  import opened Wrappers
  import opened StringOrder
  import opened SchemaStatements
  import opened SchemaDiff
  import opened SchemaTheorems

  // -------------------------------------------------------------- one declaration order

  ghost predicate Ascending(cur: Table, s: seq<string>) {
    && (forall i :: 0 <= i < |s| ==> s[i] in cur.columns)
    && (forall i, j :: 0 <= i < j < |s| ==> Precedes(cur, s[i], s[j]))
  }

  lemma PrecedesOnce(cur: Table, a: string, b: string)
    requires a in cur.columns && b in cur.columns
    ensures !(Precedes(cur, a, b) && Precedes(cur, b, a)) && !(a == b && Precedes(cur, a, b))
  {
    LessTotal(a, b);
  }

  lemma AscendingTail(cur: Table, s: seq<string>)
    requires Ascending(cur, s) && s != []
    ensures Ascending(cur, s[1..]) && Elements(s[1..]) == Elements(s) - {s[0]}
  {
    assert s == [s[0]] + s[1..];
    ElementsCons(s[0], s[1..]);
    forall i | 0 < i < |s| ensures s[i] != s[0] {
      PrecedesOnce(cur, s[0], s[i]);
    }
    hide Precedes;
  }

  lemma FirstIsLeast(cur: Table, a: seq<string>, b: seq<string>)
    requires Ascending(cur, a) && Ascending(cur, b) && Elements(a) == Elements(b) && a != [] && b != []
    ensures a[0] == b[0]
  {
    assert a[0] in Elements(b) && b[0] in Elements(a);
    var i :| 0 <= i < |b| && b[i] == a[0];
    var j :| 0 <= j < |a| && a[j] == b[0];
    PrecedesOnce(cur, a[0], b[0]);
    hide Precedes;
  }

  lemma HasElements(s: seq<string>)
    ensures s != [] <==> Elements(s) != {}
  {
    if s != [] {
      assert s[0] in Elements(s);
    }
  }

  /** Position, with name breaking ties, leaves one declaration order. */
  lemma {:induction false} OneDeclarationOrder(cur: Table, a: seq<string>, b: seq<string>)
    requires Ascending(cur, a) && Ascending(cur, b) && Elements(a) == Elements(b)
    ensures a == b
    decreases |a|
  {
    hide Ascending;
    HasElements(a);
    HasElements(b);
    if a != [] {
      FirstIsLeast(cur, a, b);
      AscendingTail(cur, a);
      AscendingTail(cur, b);
      OneDeclarationOrder(cur, a[1..], b[1..]);
      assert a == [a[0]] + a[1..] && b == [b[0]] + b[1..];
    }
  }

  lemma PrecedesTotal(cur: Table, a: string, b: string)
    requires a in cur.columns && b in cur.columns && a != b
    ensures Precedes(cur, a, b) || Precedes(cur, b, a)
  {
    LessTotal(a, b);
  }

  lemma PrecedesTransitive(cur: Table, a: string, b: string, c: string)
    requires a in cur.columns && b in cur.columns && c in cur.columns && Precedes(cur, a, b) && Precedes(cur, b, c)
    ensures Precedes(cur, a, c)
  {
    if Less(a, b) && Less(b, c) {
      LessTransitive(a, b, c);
    }
  }

  lemma {:induction false} LeastColumn(cur: Table, names: set<string>) returns (m: string)
    requires names != {} && names <= cur.columns.Keys
    ensures m in names && forall n :: n in names && n != m ==> Precedes(cur, m, n)
    decreases |names|
  {
    hide Precedes;
    var c :| c in names;
    if names == {c} {
      m := c;
    } else {
      var r := LeastColumn(cur, names - {c});
      PrecedesTotal(cur, c, r);
      m := if Precedes(cur, c, r) then c else r;
      forall n | n in names && n != m ensures Precedes(cur, m, n) {
        if m == c && n != r {
          PrecedesTransitive(cur, c, r, n);
        }
      }
    }
  }

  lemma {:induction false} OrderExists(cur: Table, names: set<string>) returns (order: seq<string>)
    requires names <= cur.columns.Keys
    ensures Ascending(cur, order) && Elements(order) == names
    decreases |names|
  {
    hide Precedes;
    if names == {} {
      order := [];
    } else {
      var m := LeastColumn(cur, names);
      var rest := OrderExists(cur, names - {m});
      order := [m] + rest;
      ElementsCons(m, rest);
      forall i | 0 <= i < |rest| ensures Precedes(cur, m, rest[i]) {
        assert rest[i] in Elements(rest);
      }
      assert forall i :: 0 < i < |order| ==> order[i] == rest[i - 1];
    }
  }

  lemma {:induction false} BeforeExists(cur: Table, n: string, below: set<string>) returns (b: Option<string>)
    requires n in cur.columns && below <= cur.columns.Keys
    requires forall c :: c in below ==> cur.columns[c].position < cur.columns[n].position
    ensures below == {} ==> b.None?
    ensures below != {} ==> b.Some? && b.value in below
                            && forall c :: c in below ==> cur.columns[c].position <= cur.columns[b.value].position
    decreases |below|
  {
    if below == {} {
      b := None;
    } else {
      var c :| c in below;
      b := BeforeExists(cur, n, below - {c});
      if b.None? || cur.columns[b.value].position < cur.columns[c].position {
        b := Some(c);
      }
    }
  }

  lemma SomeBefore(cur: Table, n: string) returns (b: Option<string>)
    requires n in cur.columns
    ensures IsColumnBefore(cur, n, b)
  {
    var below := set c | c in cur.columns && cur.columns[c].position < cur.columns[n].position;
    b := BeforeExists(cur, n, below);
    if b.None? {
      forall c | c in cur.columns ensures cur.columns[c].position >= cur.columns[n].position {
        assert c !in below;
      }
    } else {
      assert b.value in below;
      forall c | c in cur.columns && cur.columns[c].position < cur.columns[n].position
        ensures cur.columns[c].position <= cur.columns[b.value].position
      {
        assert c in below;
      }
    }
  }

  lemma LayoutExists(cur: Table) returns (y: Layout)
    ensures IsLayout(cur, y)
  {
    hide Precedes, Elements, IsColumnBefore;
    var order := OrderExists(cur, cur.columns.Keys);
    forall n | n in cur.columns ensures exists b :: IsColumnBefore(cur, n, b) {
      var b := SomeBefore(cur, n);
    }
    y := Layout(order, map n | n in cur.columns :: (var b :| IsColumnBefore(cur, n, b); b));
  }

  // ------------------------------------------------------------------ what is emitted

  lemma TiedBefore(cur: Table, n: string, a: string, b: string)
    requires n in cur.columns && b in cur.columns && IsColumnBefore(cur, n, Some(a))
    requires cur.columns[a].position == cur.columns[b].position
    ensures IsColumnBefore(cur, n, Some(b))
  {
  }

  lemma Replaced(cur: Table, y: Layout, n: string, other: Option<string>)
    requires IsLayout(cur, y) && n in cur.columns && IsColumnBefore(cur, n, other)
    ensures IsLayout(cur, y.(before := y.before[n := other]))
  {
    hide IsDeclarationOrder, IsColumnBefore;
  }

  lemma OrderAscends(cur: Table, y: Layout)
    requires IsLayout(cur, y)
    ensures Ascending(cur, y.order) && Elements(y.order) == cur.columns.Keys && y.before.Keys == cur.columns.Keys
    ensures forall n :: n in cur.columns ==> IsColumnBefore(cur, n, y.before[n])
  {
    hide Precedes, Elements, IsColumnBefore;
  }

  /** Two columns tie for the place just before a column that is to be added. */
  ghost predicate Tied(prev: Table, cur: Table) {
    exists n, a, b :: TiesFor(prev, cur, n, a, b)
  }

  ghost predicate TiesFor(prev: Table, cur: Table, n: string, a: string, b: string) {
    && n in cur.columns && n !in prev.columns && b in cur.columns && a != b
    && IsColumnBefore(cur, n, Some(a)) && cur.columns[a].position == cur.columns[b].position
  }

  lemma SameBefore(prev: Table, cur: Table, n: string, p: Option<string>, q: Option<string>)
    requires n in cur.columns && n !in prev.columns && !Tied(prev, cur)
    requires IsColumnBefore(cur, n, p) && IsColumnBefore(cur, n, q)
    ensures p == q
  {
    if p != q {
      assert p.Some? && q.Some?;
      assert TiesFor(prev, cur, n, p.value, q.value);
    }
  }

  lemma SameOps(prev: Table, cur: Table, norm: Normalizer, y: Layout, z: Layout)
    requires IsLayout(cur, y) && IsLayout(cur, z) && !Tied(prev, cur)
    ensures y.before.Keys == cur.columns.Keys == z.before.Keys
    ensures TableOps(prev, cur, norm, y) == TableOps(prev, cur, norm, z)
  {
    hide IsLayout, Tied, Ascending, IsColumnBefore, Elements;
    OrderAscends(cur, y);
    OrderAscends(cur, z);
    OneDeclarationOrder(cur, y.order, z.order);
    forall n | n in cur.columns && n !in prev.columns ensures y.before[n] == z.before[n] {
      SameBefore(prev, cur, n, y.before[n], z.before[n]);
    }
    assert Additions(prev, cur, y.before) == Additions(prev, cur, z.before);
  }

  /** Lists of one statement per name that come out the same say the same of every name. */
  lemma {:induction false} ConcatTells(names: seq<string>, a: map<string, seq<Op>>, b: map<string, seq<Op>>, n: string)
    requires a.Keys == b.Keys && forall k :: k in a ==> |a[k]| == |b[k]| == 1
    ensures |Concat(names, a)| == |Concat(names, b)|
    ensures Concat(names, a) == Concat(names, b) && n in names && n in a ==> a[n] == b[n]
  {
    if names != [] {
      var (m, rest) := (names[0], names[1..]);
      ConcatTells(rest, a, b, n);
      if m in a && Concat(names, a) == Concat(names, b) {
        assert Concat(names, a)[..1] == a[m] && Concat(names, b)[..1] == b[m];
        assert Concat(names, a)[1..] == Concat(rest, a) && Concat(names, b)[1..] == Concat(rest, b);
      }
    }
  }

  lemma MiddleTells<T>(p: seq<T>, a: seq<T>, b: seq<T>, r: seq<T>)
    requires |a| == |b| && p + a + r == p + b + r
    ensures a == b
  {
    assert (p + a + r)[|p|..|p| + |a|] == a && (p + b + r)[|p|..|p| + |b|] == b;
  }

  /** All of a table's statements but the additions. */
  ghost function Lead(prev: Table, cur: Table): seq<Op> {
    Concat(InOrder(cur.columns.Keys), Removals(prev, cur))
  }

  ghost function Rest(prev: Table, cur: Table, norm: Normalizer): seq<Op> {
    Concat(InOrder(cur.columns.Keys), Restatements(prev, cur, norm))
    + Concat(InOrder(prev.columns.Keys), Drops(prev, cur)) + TailOps(prev, cur)
  }

  lemma OpsAround(prev: Table, cur: Table, norm: Normalizer, y: Layout)
    requires y.before.Keys == cur.columns.Keys
    ensures TableOps(prev, cur, norm, y) ==
            Lead(prev, cur) + Concat(y.order, Additions(prev, cur, y.before)) + Rest(prev, cur, norm)
  {
    hide Concat, InOrder, TailOps, Removals, Restatements, Drops, Additions;
  }

  lemma AdditionsTell(prev: Table, cur: Table, y: Layout, z: Layout, n: string)
    requires y.before.Keys == cur.columns.Keys == z.before.Keys && y.order == z.order && n in y.order
    requires n in cur.columns && n !in prev.columns && y.before[n] != z.before[n]
    ensures var (a, b) := (Concat(y.order, Additions(prev, cur, y.before)),
                           Concat(z.order, Additions(prev, cur, z.before)));
      |a| == |b| && a != b
  {
    hide Concat;
    var a: map<string, seq<Op>> := Additions(prev, cur, y.before);
    var b: map<string, seq<Op>> := Additions(prev, cur, z.before);
    assert a[n] != b[n];
    ConcatTells(y.order, a, b, n);
  }

  lemma DifferentOps(prev: Table, cur: Table, norm: Normalizer, y: Layout, z: Layout, n: string)
    requires y.before.Keys == cur.columns.Keys == z.before.Keys && y.order == z.order && n in y.order
    requires n in cur.columns && n !in prev.columns && y.before[n] != z.before[n]
    ensures TableOps(prev, cur, norm, y) != TableOps(prev, cur, norm, z)
  {
    hide TableOps, Concat, Additions, Lead, Rest;
    OpsAround(prev, cur, norm, y);
    OpsAround(prev, cur, norm, z);
    AdditionsTell(prev, cur, y, z, n);
    if TableOps(prev, cur, norm, y) == TableOps(prev, cur, norm, z) {
      MiddleTells(Lead(prev, cur), Concat(y.order, Additions(prev, cur, y.before)),
                  Concat(z.order, Additions(prev, cur, z.before)), Rest(prev, cur, norm));
    }
  }

  lemma TwoPlans(prev: Table, cur: Table, norm: Normalizer) returns (y: Layout, z: Layout)
    requires Tied(prev, cur)
    ensures IsLayout(cur, y) && IsLayout(cur, z) && TableOps(prev, cur, norm, y) != TableOps(prev, cur, norm, z)
  {
    var n, a, b :| TiesFor(prev, cur, n, a, b);
    y := LayoutExists(cur);
    LayoutNames(cur, y);
    TiedBefore(cur, n, a, b);
    hide IsLayout, IsColumnBefore, TableOps;
    var other := Some(if y.before[n] == Some(a) then b else a);
    Replaced(cur, y, n, other);
    z := y.(before := y.before[n := other]);
    assert n in Elements(y.order);
    DifferentOps(prev, cur, norm, y, z, n);
  }

  /**
    Whatever order the maps are ranged in, the statements for a table are a function of the live
    and the declared side exactly when no two columns tie for the place before a column to be added.
   */
  lemma PlanDetermined(prev: Table, cur: Table, norm: Normalizer)
    ensures (forall y, z :: IsLayout(cur, y) && IsLayout(cur, z) ==>
               TableOps(prev, cur, norm, y) == TableOps(prev, cur, norm, z))
       <==> !Tied(prev, cur)
  {
    if Tied(prev, cur) {
      var y, z := TwoPlans(prev, cur, norm);
    } else {
      forall y, z | IsLayout(cur, y) && IsLayout(cur, z)
        ensures TableOps(prev, cur, norm, y) == TableOps(prev, cur, norm, z)
      {
        SameOps(prev, cur, norm, y, z);
      }
    }
  }

  // ----------------------------------------------------------------- a tied declaration

  function TextColumn(name: string, position: int): Column {
    Column(name, "String", position, "", "", "", "", "", false, false, false)
  }

  function With(columns: map<string, Column>): Table {
    Table(columns, "MergeTree", [], "", "", "", "", map[], "")
  }

  function TiedLive(): Table {
    With(map["a" := TextColumn("a", 1), "b" := TextColumn("b", 2)])
  }

  function TiedDeclared(): Table {
    With(map["a" := TextColumn("a", 1), "b" := TextColumn("b", 1), "c" := TextColumn("c", 2)])
  }

  /** "a" and "b" both say they are first, and "c" is new: it is added after one or after the other. */
  lemma TiedDeclaration(norm: Normalizer) returns (y: Layout, z: Layout)
    ensures IsLayout(TiedDeclared(), y) && IsLayout(TiedDeclared(), z)
    ensures TableOps(TiedLive(), TiedDeclared(), norm, y) != TableOps(TiedLive(), TiedDeclared(), norm, z)
  {
    assert TiesFor(TiedLive(), TiedDeclared(), "c", "a", "b");
    y, z := TwoPlans(TiedLive(), TiedDeclared(), norm);
  }
}
