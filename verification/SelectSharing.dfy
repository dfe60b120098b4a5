/**
  The SELECT builder on the heap: clause lists in slices over shared arrays, a shallow copy per
  execution, and lists copied only once something in them changes.
 */
module SelectSharing {
  import opened Wrappers
  import JoinChain
  import opened Resolution
  import opened ResolutionTheorems
  import opened ResolutionFaults

  // --------------------------------------------------------------------- list walks

  lemma {:induction false} WalkSnoc(schema: Schema, m: Mode, es: seq<Expr>, e: Expr)
    ensures WalkAll(schema, m, es).Fail? ==> WalkAll(schema, m, es + [e]) == WalkAll(schema, m, es)
    ensures WalkAll(schema, m, es).Done? && WalkExpr(schema, m, e).Fail? ==>
              WalkAll(schema, m, es + [e]) == Fail(WalkExpr(schema, m, e).error)
    ensures WalkAll(schema, m, es).Done? && WalkExpr(schema, m, e).Done? ==>
              WalkAll(schema, m, es + [e]) ==
              Done(WalkAll(schema, m, es).value + [WalkExpr(schema, m, e).value],
                   WalkAll(schema, m, es).changed || WalkExpr(schema, m, e).changed)
  {
    hide WalkExpr;
    if es == [] {
      assert es + [e] == [e] && [e][1..] == [];
      assert WalkAll(schema, m, []) == Done([], false);
      if WalkExpr(schema, m, e).Done? {
        var x := WalkExpr(schema, m, e).value;
        assert [x] + [] == [] + [x];
      }
    } else {
      assert (es + [e])[1..] == es[1..] + [e];
      WalkSnoc(schema, m, es[1..], e);
      if WalkAll(schema, m, es).Done? && WalkExpr(schema, m, e).Done? {
        var r, rs := WalkExpr(schema, m, es[0]).value, WalkAll(schema, m, es[1..]).value;
        var x := WalkExpr(schema, m, e).value;
        assert [r] + (rs + [x]) == [r] + rs + [x];
      }
    }
  }

  lemma {:induction false} FailedPrefix(schema: Schema, m: Mode, es: seq<Expr>, i: nat)
    requires i <= |es| && WalkAll(schema, m, es[..i]).Fail?
    ensures WalkAll(schema, m, es) == WalkAll(schema, m, es[..i])
    decreases |es| - i
  {
    hide WalkAll, WalkExpr;
    if i == |es| {
      assert es[..i] == es;
    } else {
      assert es[..i + 1] == es[..i] + [es[i]];
      WalkSnoc(schema, m, es[..i], es[i]);
      FailedPrefix(schema, m, es, i + 1);
    }
  }

  lemma {:induction false} UnchangedIsSame(schema: Schema, m: Mode, e: Expr)
    requires WalkExpr(schema, m, e).Done? && !WalkExpr(schema, m, e).changed
    ensures WalkExpr(schema, m, e).value == e
  {
  }

  lemma WalkNil(schema: Schema, m: Mode)
    ensures WalkAll(schema, m, []) == Done([], false)
  {
  }

  /** One list after another is the lists joined. */
  function Joined(a: Walked<seq<Expr>>, b: Walked<seq<Expr>>): Walked<seq<Expr>> {
    match (a, b)
    case (Fail(x), _) => Fail(x)
    case (_, Fail(x)) => Fail(x)
    case (Done(xs, c), Done(ys, d)) => Done(xs + ys, c || d)
  }

  lemma {:induction false} WalkConcat(schema: Schema, m: Mode, a: seq<Expr>, b: seq<Expr>)
    ensures WalkAll(schema, m, a + b) == Joined(WalkAll(schema, m, a), WalkAll(schema, m, b))
  {
    hide WalkExpr;
    if a == [] {
      assert a + b == b;
      WalkNil(schema, m);
      var ys := WalkAll(schema, m, b);
      assert ys.Done? ==> [] + ys.value == ys.value;
    } else {
      assert (a + b)[0] == a[0] && (a + b)[1..] == a[1..] + b;
      WalkConcat(schema, m, a[1..], b);
      var (x, xs, ys) := (WalkExpr(schema, m, a[0]), WalkAll(schema, m, a[1..]), WalkAll(schema, m, b));
      if x.Done? && xs.Done? && ys.Done? {
        assert [x.value] + (xs.value + ys.value) == [x.value] + xs.value + ys.value;
      }
    }
  }

  // ------------------------------------------------------------------------- slices

  /** A slice header: the first n places of an array that may be longer and may be shared. */
  datatype Slice<T> = Slice(a: array<T>, n: nat)

  ghost predicate Fits<T>(s: Slice<T>) {
    s.n <= s.a.Length
  }

  ghost function Contents<T>(s: Slice<T>): seq<T>
    requires Fits(s)
    reads s.a
  {
    s.a[..s.n]
  }

  method CopyOf<T>(s: Slice<T>) returns (c: Slice<T>)
    requires Fits(s)
    ensures fresh(c.a) && Fits(c) && Contents(c) == Contents(s) && c.n == s.n
  {
    var a := new T[s.n](i requires 0 <= i < s.n && s.n <= s.a.Length reads s.a => s.a[i]);
    c := Slice(a, s.n);
  }

  /** Stores into the copy, which is made when the first element changes. */
  method Store<T>(out: Option<Slice<T>>, list: Slice<T>, i: nat, v: T) returns (c: Slice<T>)
    requires Fits(list) && i < list.n && (out.Some? ==> Fits(out.value) && out.value.n == list.n)
    modifies if out.Some? then {out.value.a} else {}
    ensures Fits(c) && c.n == list.n && (if out.Some? then c == out.value else fresh(c.a))
    ensures Contents(c) == old(Contents(if out.Some? then out.value else list))[i := v]
  {
    if out.Some? {
      c := out.value;
    } else {
      c := CopyOf(list);
    }
    c.a[i] := v;
  }

  /** How far the list has been walked: these results, and whether any differs. */
  ghost predicate WalkedTo(schema: Schema, m: Mode, all: seq<Expr>, i: nat, done: seq<Expr>, changed: bool)
    requires i <= |all|
  {
    WalkAll(schema, m, all[..i]) == Done(done, changed) && (!changed ==> all[..i] == done)
  }

  lemma WalkedStarts(schema: Schema, m: Mode, all: seq<Expr>)
    ensures WalkedTo(schema, m, all, 0, [], false)
  {
    assert all[..0] == [];
  }

  lemma WalkedNext(schema: Schema, m: Mode, all: seq<Expr>, i: nat, done: seq<Expr>, changed: bool)
    requires i < |all| && WalkedTo(schema, m, all, i, done, changed)
    ensures var step := WalkExpr(schema, m, all[i]);
      if step.Fail? then WalkAll(schema, m, all) == Fail(step.error)
      else WalkedTo(schema, m, all, i + 1, done + [step.value], changed || step.changed)
           && (!step.changed ==> step.value == all[i])
  {
    hide WalkAll, WalkExpr;
    assert all[..i + 1] == all[..i] + [all[i]];
    WalkSnoc(schema, m, all[..i], all[i]);
    var step := WalkExpr(schema, m, all[i]);
    if step.Fail? {
      FailedPrefix(schema, m, all, i + 1);
    } else if !step.changed {
      UnchangedIsSame(schema, m, all[i]);
    }
  }

  lemma WalkedAll(schema: Schema, m: Mode, all: seq<Expr>, done: seq<Expr>, changed: bool)
    requires WalkedTo(schema, m, all, |all|, done, changed)
    ensures WalkAll(schema, m, all) == Done(done, changed) && (!changed ==> done == all)
  {
    assert all[..|all|] == all;
  }

  lemma Advance<T>(done: seq<T>, all: seq<T>, i: nat, v: T)
    requires |done| == i < |all|
    ensures (done + all[i..])[i := v] == done + [v] + all[i + 1..]
    ensures v == all[i] ==> done + all[i..] == done + [v] + all[i + 1..]
  {
  }

  /** The list walk: None while nothing changed, so that the caller keeps its own list. */
  method ResolveExprs(schema: Schema, m: Mode, list: Slice<Expr>) returns (w: Result<Option<Slice<Expr>>, Error>)
    requires Fits(list)
    ensures match WalkAll(schema, m, Contents(list))
      case Fail(x) => w == Err(x)
      case Done(rs, changed) =>
        && w.Ok? && (w.value.Some? <==> changed)
        && (changed ==> fresh(w.value.value.a) && Fits(w.value.value) && Contents(w.value.value) == rs)
        && (!changed ==> rs == Contents(list))
  {
    hide WalkAll, WalkExpr, WalkedTo;
    var out: Option<Slice<Expr>> := None;
    ghost var all := Contents(list);
    ghost var done: seq<Expr> := [];
    WalkedStarts(schema, m, all);
    for i := 0 to list.n
      invariant |done| == i && WalkedTo(schema, m, all, i, done, out.Some?)
      invariant out.Some? ==> fresh(out.value.a) && Fits(out.value) && out.value.n == list.n
      invariant Contents(list) == all && (if out.Some? then Contents(out.value) else all) == done + all[i..]
    {
      var step := WalkExpr(schema, m, list.a[i]);
      WalkedNext(schema, m, all, i, done, out.Some?);
      if step.Fail? {
        return Err(step.error);
      }
      Advance(done, all, i, step.value);
      if step.changed {
        var c := Store(out, list, i, step.value);
        out := Some(c);
      }
      done := done + [step.value];
    }
    assert done + all[list.n..] == done;
    WalkedAll(schema, m, all, done, out.Some?);
    return Ok(out);
  }

  // -------------------------------------------------------------------------- joins

  datatype JoinClause = JoinClause(kind: JoinChain.JoinKind, table: Table, on: Expr)

  function Ons(js: seq<JoinClause>): (es: seq<Expr>)
    ensures |es| == |js| && forall i :: 0 <= i < |js| ==> es[i] == js[i].on
  {
    seq(|js|, i requires 0 <= i < |js| => js[i].on)
  }

  function JoinsOf(js: seq<JoinClause>): (r: seq<Resolution.Joined>)
    ensures |r| == |js| && forall i :: 0 <= i < |js| ==> r[i] == Resolution.Joined(js[i].kind, js[i].table)
  {
    seq(|js|, i requires 0 <= i < |js| => Resolution.Joined(js[i].kind, js[i].table))
  }

  /** The ON of every join; the list is copied at the first that changes, which the array tells. */
  method ResolveOns(schema: Schema, m: Mode, list: Slice<JoinClause>)
    returns (w: Result<Slice<JoinClause>, Error>, changed: bool)
    requires Fits(list)
    ensures match WalkAll(schema, m, Ons(Contents(list)))
      case Fail(x) => w == Err(x)
      case Done(rs, ch) =>
        && w.Ok? && changed == ch && Fits(w.value) && Ons(Contents(w.value)) == rs
        && JoinsOf(Contents(w.value)) == JoinsOf(Contents(list))
        && (if ch then fresh(w.value.a) else w.value == list)
  {
    hide WalkAll, WalkExpr, WalkedTo;
    changed := false;
    var joins := list;
    ghost var was := Contents(list);
    ghost var all := Ons(was);
    ghost var done: seq<Expr> := [];
    WalkedStarts(schema, m, all);
    for i := 0 to list.n
      invariant |done| == i && WalkedTo(schema, m, all, i, done, changed)
      invariant Fits(joins) && joins.n == list.n && Contents(list) == was
      invariant if changed then fresh(joins.a) else joins == list
      invariant changed <==> joins.a != list.a
      invariant Ons(Contents(joins)) == done + all[i..] && JoinsOf(Contents(joins)) == JoinsOf(was)
    {
      var step := WalkExpr(schema, m, list.a[i].on);
      WalkedNext(schema, m, all, i, done, changed);
      if step.Fail? {
        return Err(step.error), changed;
      }
      Advance(done, all, i, step.value);
      if step.changed {
        if joins.a == list.a {
          joins := CopyOf(list);
        }
        OnStored(Contents(joins), i, step.value);
        joins.a[i] := joins.a[i].(on := step.value);
        changed := true;
      }
      done := done + [step.value];
    }
    assert done + all[list.n..] == done;
    WalkedAll(schema, m, all, done, changed);
    return Ok(joins), changed;
  }

  lemma OnStored(js: seq<JoinClause>, i: nat, on: Expr)
    requires i < |js|
    ensures var r := js[i := js[i].(on := on)]; Ons(r) == Ons(js)[i := on] && JoinsOf(r) == JoinsOf(js)
  {
  }

  // ------------------------------------------------------------------- clause lists

  ghost predicate AllFit(cs: seq<Slice<Expr>>) {
    forall i :: 0 <= i < |cs| ==> Fits(cs[i])
  }

  ghost function Flat(cs: seq<Slice<Expr>>): seq<Expr>
    requires AllFit(cs)
    reads set i | 0 <= i < |cs| :: cs[i].a
  {
    if cs == [] then [] else Flat(cs[..|cs| - 1]) + Contents(cs[|cs| - 1])
  }

  lemma FlatSnoc(cs: seq<Slice<Expr>>, s: Slice<Expr>)
    requires AllFit(cs) && Fits(s)
    ensures AllFit(cs + [s]) && Flat(cs + [s]) == Flat(cs) + Contents(s)
  {
    assert (cs + [s])[..|cs|] == cs;
  }

  lemma FlatNext(schema: Schema, m: Mode, cs: seq<Slice<Expr>>, i: nat)
    requires AllFit(cs) && i < |cs|
    ensures WalkAll(schema, m, Flat(cs[..i + 1])) ==
            Joined(WalkAll(schema, m, Flat(cs[..i])), WalkAll(schema, m, Contents(cs[i])))
    ensures WalkAll(schema, m, Flat(cs[..i + 1])).Fail? ==>
            WalkAll(schema, m, Flat(cs)) == WalkAll(schema, m, Flat(cs[..i + 1]))
  {
    hide WalkAll;
    assert cs[..i + 1] == cs[..i] + [cs[i]];
    FlatSnoc(cs[..i], cs[i]);
    WalkConcat(schema, m, Flat(cs[..i]), Contents(cs[i]));
    if WalkAll(schema, m, Flat(cs[..i + 1])).Fail? {
      FailedFlat(schema, m, cs, i + 1);
    }
  }

  /** Each list in turn; one in which nothing changed stays the caller's own. */
  method ResolveClauses(schema: Schema, m: Mode, cs: seq<Slice<Expr>>)
    returns (w: Result<seq<Slice<Expr>>, Error>, changed: bool)
    requires AllFit(cs)
    ensures match WalkAll(schema, m, Flat(cs))
      case Fail(x) => w == Err(x)
      case Done(rs, ch) =>
        && w.Ok? && changed == ch && |w.value| == |cs| && AllFit(w.value) && Flat(w.value) == rs
        && (forall i :: 0 <= i < |cs| ==> w.value[i] == cs[i] || fresh(w.value[i].a))
        && (!ch ==> w.value == cs)
  {
    hide WalkAll, Flat, Contents;
    var out: seq<Slice<Expr>> := [];
    changed := false;
    NothingFlat(schema, m);
    assert cs[..0] == [];
    for i := 0 to |cs|
      invariant |out| == i && AllFit(out) && (!changed ==> out == cs[..i])
      invariant forall j :: 0 <= j < i ==> out[j] == cs[j] || fresh(out[j].a)
      invariant WalkAll(schema, m, Flat(cs[..i])) == Done(Flat(out), changed)
    {
      FlatNext(schema, m, cs, i);
      var r := ResolveExprs(schema, m, cs[i]);
      if r.Err? {
        return Err(r.error), changed;
      }
      var next := if r.value.Some? then r.value.value else cs[i];
      FlatSnoc(out, next);
      out := out + [next];
      changed := changed || r.value.Some?;
    }
    assert cs[..|cs|] == cs;
    return Ok(out), changed;
  }

  lemma NothingFlat(schema: Schema, m: Mode)
    ensures WalkAll(schema, m, Flat([])) == Done(Flat([]), false)
  {
  }

  lemma {:induction false} FailedFlat(schema: Schema, m: Mode, cs: seq<Slice<Expr>>, i: nat)
    requires AllFit(cs) && i <= |cs| && WalkAll(schema, m, Flat(cs[..i])).Fail?
    ensures WalkAll(schema, m, Flat(cs)) == WalkAll(schema, m, Flat(cs[..i]))
    decreases |cs| - i
  {
    hide WalkAll;
    if i == |cs| {
      assert cs[..i] == cs;
    } else {
      assert cs[..i + 1][..i] == cs[..i];
      WalkConcat(schema, m, Flat(cs[..i]), Contents(cs[i]));
      FailedFlat(schema, m, cs, i + 1);
    }
  }

  // -------------------------------------------------------------------- the builder

  /** Columns, PREWHERE, WHERE, GROUP BY, HAVING and ORDER BY; SAMPLE; the CTE bodies; the joins. */
  datatype Lists = Lists(clauses: seq<Slice<Expr>>, sampleBy: Expr, ctes: Slice<Expr>, joins: Slice<JoinClause>)

  ghost predicate ListsFit(l: Lists) {
    AllFit(l.clauses) && Fits(l.ctes) && Fits(l.joins)
  }

  ghost function Arrays(l: Lists): set<object> {
    (set i | 0 <= i < |l.clauses| :: l.clauses[i].a as object) + {l.ctes.a, l.joins.a}
  }

  /** Every expression the renderer reads, in the order the walk visits them. */
  ghost function Operands(l: Lists): seq<Expr>
    requires ListsFit(l)
    reads Arrays(l)
  {
    Flat(l.clauses) + [l.sampleBy] + Contents(l.ctes) + Ons(Contents(l.joins))
  }

  lemma OperandsWalk(schema: Schema, m: Mode, l: Lists)
    requires ListsFit(l)
    ensures WalkAll(schema, m, Operands(l)) ==
            Joined(Joined(Joined(WalkAll(schema, m, Flat(l.clauses)), WalkAll(schema, m, [l.sampleBy])),
                          WalkAll(schema, m, Contents(l.ctes))), WalkAll(schema, m, Ons(Contents(l.joins))))
  {
    hide WalkAll, Joined, Flat, Contents, Ons;
    WalkConcat(schema, m, Flat(l.clauses), [l.sampleBy]);
    WalkConcat(schema, m, Flat(l.clauses) + [l.sampleBy], Contents(l.ctes));
    WalkConcat(schema, m, Flat(l.clauses) + [l.sampleBy] + Contents(l.ctes), Ons(Contents(l.joins)));
  }

  lemma WalkOne(schema: Schema, m: Mode, e: Expr)
    ensures var w := WalkExpr(schema, m, e);
      && WalkAll(schema, m, [e]) == (if w.Fail? then Fail(w.error) else Done([w.value], w.changed))
      && (w.Done? && !w.changed ==> w.value == e)
  {
    hide WalkExpr;
    WalkNil(schema, m);
    assert [e][1..] == [];
    assert WalkExpr(schema, m, e).Done? ==> [WalkExpr(schema, m, e).value] + [] == [WalkExpr(schema, m, e).value];
    if WalkExpr(schema, m, e).Done? && !WalkExpr(schema, m, e).changed {
      UnchangedIsSame(schema, m, e);
    }
  }

  function Blank(n: nat, a: Added): (r: seq<Added>)
    ensures |r| == n && forall i :: 0 <= i < n ==> r[i] == a
  {
    seq(n, _ => a)
  }

  lemma {:induction false} PlainCtx(schema: Schema, m: Mode, ts: seq<Table>)
    ensures var w := WalkCtx(schema, m, ts); w.Done? && !w.changed ==> w.value == Blank(|ts|, Added([]))
  {
    hide WalkFilters;
    if ts != [] {
      PlainCtx(schema, m, ts[1..]);
    }
  }

  lemma {:induction false} PlainDefaults(schema: Schema, m: Mode, ts: seq<Table>)
    ensures var w := WalkDefaults(schema, m, ts); w.Done? && !w.changed ==> w.value == Blank(|ts|, Unresolved)
  {
    hide WalkDefault;
    if ts != [] {
      PlainDefaults(schema, m, ts[1..]);
    }
  }

  /** Each list is the one that was there, or over an array that was not. */
  twostate predicate SharesOnly(l: Lists, new r: Lists) {
    && |r.clauses| == |l.clauses|
    && (forall i :: 0 <= i < |l.clauses| ==> r.clauses[i] == l.clauses[i] || fresh(r.clauses[i].a))
    && (r.ctes == l.ctes || fresh(r.ctes.a)) && (r.joins == l.joins || fresh(r.joins.a))
  }

  /** Walks every list. A list in which nothing changed is the one that was given. */
  method ResolveLists(schema: Schema, m: Mode, l: Lists) returns (w: Result<Lists, Error>, changed: bool)
    requires ListsFit(l)
    ensures match WalkAll(schema, m, Operands(l))
      case Fail(x) => w == Err(x)
      case Done(os, ch) =>
        && w.Ok? && changed == ch && ListsFit(w.value) && Operands(w.value) == os
        && JoinsOf(Contents(w.value.joins)) == JoinsOf(Contents(l.joins)) && (!ch ==> w.value == l)
    ensures w.Ok? ==> SharesOnly(l, w.value)
  {
    hide WalkAll, WalkExpr, Flat, Contents, Ons, JoinsOf;
    OperandsWalk(schema, m, l);
    var clauses, c0 := ResolveClauses(schema, m, l.clauses);
    if clauses.Err? {
      return Err(clauses.error), false;
    }
    WalkOne(schema, m, l.sampleBy);
    var sample := WalkExpr(schema, m, l.sampleBy);
    if sample.Fail? {
      return Err(sample.error), false;
    }
    var ctes := ResolveExprs(schema, m, l.ctes);
    if ctes.Err? {
      return Err(ctes.error), false;
    }
    var joins, c3 := ResolveOns(schema, m, l.joins);
    if joins.Err? {
      return Err(joins.error), false;
    }
    changed := c0 || sample.changed || ctes.value.Some? || c3;
    var bodies := if ctes.value.Some? then ctes.value.value else l.ctes;
    return Ok(Lists(clauses.value, sample.value, bodies, joins.value)), changed;
  }

  /** What a copy carries for its tables; what it did not resolve stands for nothing added. */
  function WithAdded(s: Stmt, ctx: Option<seq<Added>>, defaults: Option<seq<Added>>): Stmt {
    if !s.resolved || DropsContextFilters(s) then s
    else
      var n := |TablesOf(s)|;
      s.(ctx := if ctx.Some? then ctx.value else Blank(n, Added([])),
         defaults := if defaults.Some? then defaults.value else Blank(n, Unresolved))
  }

  ghost predicate Untouched(s: Stmt) {
    !s.deferred && !s.resolved && s.ctx == [] && s.defaults == []
  }

  /** The tables' own predicates, once the lists have been walked to `os`. */
  method ResolveTables(schema: Schema, m: Mode, shell: Stmt, ghost s: Stmt, ghost os: seq<Expr>, ghost walked: bool)
    returns (w: Result<(Option<seq<Added>>, Option<seq<Added>>), Error>)
    requires Untouched(s) && shell == s.(operands := []) && WalkAll(schema, m, s.operands) == Done(os, walked)
    ensures match WalkStmt(schema, m, s)
      case Fail(x) => w == Err(x)
      case Done(e, changed) =>
        && w.Ok? && changed == (walked || w.value.0.Some? || w.value.1.Some?)
        && e == Select(if changed then WithAdded(s.(operands := os, resolved := true), w.value.0, w.value.1) else s)
  {
    hide WalkAll, WalkCtx, WalkDefaults, CheckJoinPlacement;
    if DropsContextFilters(shell) {
      return Ok((None, None));
    }
    var refused := CheckJoinPlacement(schema, shell.from, shell.joins);
    if refused.Some? {
      return Err(refused.value);
    }
    TablesAre(shell, s);
    TablesAre(s, s.(operands := os, resolved := true));
    hide TablesOf;
    var ctx := WalkCtx(schema, m, TablesOf(shell));
    PlainCtx(schema, m, TablesOf(shell));
    if ctx.Fail? {
      return Err(ctx.error);
    }
    var defaults := WalkDefaults(schema, m, TablesOf(shell));
    PlainDefaults(schema, m, TablesOf(shell));
    if defaults.Fail? {
      return Err(defaults.error);
    }
    return Ok((if ctx.changed then Some(ctx.value) else None, if defaults.changed then Some(defaults.value) else None));
  }

  /** An error among the lists is the statement's. */
  lemma ListsFirst(schema: Schema, m: Mode, s: Stmt)
    requires Untouched(s)
    ensures var w := WalkAll(schema, m, s.operands); w.Fail? ==> WalkStmt(schema, m, s) == Fail(w.error)
  {
    hide WalkAll, WalkCtx, WalkDefaults, CheckJoinPlacement;
  }

  lemma SettledStmt(schema: Schema, m: Mode, s: Stmt)
    ensures s.deferred ==> WalkStmt(schema, m, s) == Fail(Deferred)
    ensures !s.deferred && s.resolved ==> WalkStmt(schema, m, s) == Done(Select(s), false)
  {
    hide WalkAll;
  }

  datatype Gathered = Gathered(lists: Lists, ctx: Option<seq<Added>>, defaults: Option<seq<Added>>, changed: bool)

  class SelectBuilder {
    var lists: Lists
    var from: Option<Table>
    var unscoped: bool
    var keepCtx: bool
    var deferred: bool
    var resolved: bool
    var ctx: Option<seq<Added>>
    var defaults: Option<seq<Added>>

    ghost predicate Valid()
      reads this
    {
      ListsFit(lists) && (!resolved ==> ctx.None? && defaults.None?)
    }

    /** The statement as a value. What a copy did not resolve stands for nothing added. */
    ghost function Model(): Stmt
      requires Valid()
      reads this, Arrays(lists)
    {
      ModelWith(lists, resolved, ctx, defaults)
    }

    /** The shallow copy: new fields, the same arrays. */
    constructor Copy(s: SelectBuilder)
      ensures lists == s.lists && from == s.from
      ensures unscoped == s.unscoped && keepCtx == s.keepCtx && deferred == s.deferred && resolved == s.resolved
      ensures ctx == s.ctx && defaults == s.defaults
    {
      lists, from := s.lists, s.from;
      unscoped, keepCtx, deferred, resolved := s.unscoped, s.keepCtx, s.deferred, s.resolved;
      ctx, defaults := s.ctx, s.defaults;
    }

    /** A statement with these lists and the receiver's other fields. */
    ghost function ModelWith(l: Lists, done: bool, c: Option<seq<Added>>, d: Option<seq<Added>>): Stmt
      requires ListsFit(l)
      reads this, Arrays(l)
    {
      WithAdded(Stmt(Operands(l), from, JoinsOf(Contents(l.joins)), unscoped, keepCtx, deferred, [], [], done), c, d)
    }

    /** Everything there is to resolve, in the order the source does it; the builder itself is only read. */
    method Gather(schema: Schema, m: Mode) returns (w: Result<Gathered, Error>)
      requires Valid() && !deferred && !resolved
      ensures match WalkStmt(schema, m, Model())
        case Fail(x) => w == Err(x)
        case Done(e, changed) =>
          && w.Ok? && w.value.changed == changed && ListsFit(w.value.lists)
          && e == Select(if changed then ModelWith(w.value.lists, true, w.value.ctx, w.value.defaults) else Model())
      ensures w.Ok? ==> SharesOnly(lists, w.value.lists)
    {
      hide WalkAll, WalkStmt, Flat, Ons, JoinsOf;
      ghost var s := Model();
      var l, changed := ResolveLists(schema, m, lists);
      assert s.operands == Operands(lists);
      ListsFirst(schema, m, s);
      if l.Err? {
        return Err(l.error);
      }
      var joins := JoinsOf(lists.joins.a[..lists.joins.n]);
      var shell := Stmt([], from, joins, unscoped, keepCtx, deferred, [], [], false);
      assert shell == s.(operands := []);
      var added := ResolveTables(schema, m, shell, s, Operands(l.value), changed);
      if added.Err? {
        return Err(added.error);
      }
      var (ctx, defaults) := added.value;
      return Ok(Gathered(l.value, ctx, defaults, changed || ctx.Some? || defaults.Some?));
    }

    /** The shallow copy that carries what was resolved. */
    method CopyWith(g: Gathered) returns (cp: SelectBuilder)
      requires Valid() && ListsFit(g.lists)
      ensures fresh(cp) && cp.Valid() && cp.lists == g.lists
      ensures Model() == old(Model()) && cp.Model() == old(ModelWith(g.lists, true, g.ctx, g.defaults))
    {
      hide WithAdded, Flat, Ons, JoinsOf;
      cp := new SelectBuilder.Copy(this);
      cp.lists, cp.ctx, cp.defaults, cp.resolved := g.lists, g.ctx, g.defaults, true;
    }

    /**
      The builder to render for one execution: the receiver when there was nothing to resolve, and
      otherwise a new one. Nothing that existed before is written to, and the lists the copy shares
      with the receiver are the ones nothing was resolved in.
     */
    method ResolveCtx(schema: Schema, m: Mode) returns (r: Result<SelectBuilder, Error>)
      requires Valid()
      ensures match WalkStmt(schema, m, Model())
        case Fail(x) => r == Err(x)
        case Done(e, changed) =>
          && r.Ok? && r.value.Valid() && e == Select(r.value.Model())
          && (if changed then fresh(r.value) else r.value == this)
      ensures r.Ok? && r.value != this ==> SharesOnly(lists, r.value.lists)
    {
      ModelStarts();
      SettledStmt(schema, m, Model());
      hide WalkStmt, Model, ModelWith;
      if deferred {
        return Err(Deferred);
      }
      if resolved {
        return Ok(this);
      }
      var w := Gather(schema, m);
      if w.Err? {
        return Err(w.error);
      }
      if !w.value.changed {
        return Ok(this);
      }
      var cp := CopyWith(w.value);
      return Ok(cp);
    }

    /** `append`: in place where the array has room, past what any other header over it spans. */
    method Append(i: nat, e: Expr)
      requires Valid() && i < |lists.clauses| && !resolved
      modifies this`lists, lists.clauses[i].a
      ensures Valid() && |lists.clauses| == |old(lists).clauses|
      ensures lists == old(lists).(clauses := old(lists).clauses[i := lists.clauses[i]])
      ensures Contents(lists.clauses[i]) == old(Contents(lists.clauses[i])) + [e]
      ensures old(lists).clauses[i].a[..old(lists).clauses[i].n] == old(Contents(lists.clauses[i]))
    {
      var s := lists.clauses[i];
      var a := s.a;
      if s.n == a.Length {
        a := new Expr[2 * s.n + 1](k requires 0 <= k reads s.a => if k < s.a.Length then s.a[k] else e);
      }
      a[s.n] := e;
      lists := lists.(clauses := lists.clauses[i := Slice(a, s.n + 1)]);
    }

    lemma ModelStarts()
      requires Valid()
      ensures !resolved ==>
        Model() == Stmt(Operands(lists), from, JoinsOf(Contents(lists.joins)), unscoped, keepCtx, deferred,
                        [], [], false)
      ensures Model().deferred == deferred && Model().resolved == resolved
    {
    }
  }

  lemma TablesAre(a: Stmt, b: Stmt)
    requires a.from == b.from && a.joins == b.joins
    ensures TablesOf(a) == TablesOf(b)
  {
  }

  // ------------------------------------------------------------- what the frame gives

  /** Two requests over one builder: each gets its own predicates, and the builder is as it was. */
  method RequestsAreIndependent(b: SelectBuilder, first: Schema, second: Schema)
    returns (r1: Result<SelectBuilder, Error>, r2: Result<SelectBuilder, Error>)
    requires b.Valid() && RawSchema(first) && RawSchema(second) && Raw(Select(b.Model()))
    ensures b.Valid() && b.Model() == old(b.Model())
    ensures r1.Ok? <==> Faultless(first, old(b.Model()))
    ensures r2.Ok? <==> Faultless(second, old(b.Model()))
    ensures r1.Ok? ==> r1.value.Valid() && ServedBy(first, old(b.Model()), r1.value.Model())
    ensures r2.Ok? ==> r2.value.Valid() && ServedBy(second, old(b.Model()), r2.value.Model())
    ensures r1.Ok? && r2.Ok? && r1.value != b && r2.value != b ==> r1.value != r2.value
  {
    hide WalkStmt, ServedBy, Faultless, RawSchema, Raw, WithAdded, Flat, Ons, JoinsOf;
    ghost var s := b.Model();
    r1 := b.ResolveCtx(first, Guarded({}));
    Served(first, s);
    r2 := b.ResolveCtx(second, Guarded({}));
    Served(second, s);
  }

  /** The caller's statement with every reachable statement filtered for this request. */
  ghost predicate ServedBy(schema: Schema, s: Stmt, r: Stmt) {
    Scoped(schema, {}, Select(r)) && Erase(Select(r)) == Select(s)
  }

  /** Nothing the statement reaches is deferred, refuses, is a refused join or comes back to itself. */
  ghost predicate Faultless(schema: Schema, s: Stmt) {
    forall x :: !Fault(schema, {}, Select(s), x)
  }

  lemma ServesIff(schema: Schema, s: Stmt)
    ensures WalkStmt(schema, Guarded({}), s).Done? <==> Faultless(schema, s)
  {
    ResolvesIff(schema, Select(s));
    var w := Resolve(schema, Select(s));
    assert w == WalkStmt(schema, Guarded({}), s) by {
      hide WalkStmt;
    }
    if w.Done? {
      forall x ensures !Fault(schema, {}, Select(s), x) {
      }
    }
  }

  lemma Served(schema: Schema, s: Stmt)
    requires RawSchema(schema) && Raw(Select(s))
    ensures WalkStmt(schema, Guarded({}), s).Done? <==> Faultless(schema, s)
    ensures var w := WalkStmt(schema, Guarded({}), s); w.Done? ==> w.value.Select? && ServedBy(schema, s, w.value.stmt)
  {
    hide WalkAll, WalkCtx, WalkDefaults, CheckJoinPlacement, RawSchema, Raw, Scoped, Erase, Faultless;
    ServesIff(schema, s);
    if WalkStmt(schema, Guarded({}), s).Done? {
      ResolvedIsScoped(schema, Select(s));
    }
  }

  /** No two clauses of the builder, nor the CTEs, are kept in one array. */
  ghost predicate Apart(l: Lists) {
    && (forall i, j :: 0 <= i < j < |l.clauses| ==> l.clauses[i].a != l.clauses[j].a)
    && (forall i :: 0 <= i < |l.clauses| ==> l.clauses[i].a != l.ctes.a)
  }

  twostate lemma {:induction false} FlatKept(cs: seq<Slice<Expr>>)
    requires AllFit(cs) && forall i :: 0 <= i < |cs| ==> allocated(cs[i].a)
    requires forall i :: 0 <= i < |cs| ==> old(allocated(cs[i].a)) && Contents(cs[i]) == old(Contents(cs[i]))
    ensures Flat(cs) == old(Flat(cs))
  {
    if cs != [] {
      FlatKept(cs[..|cs| - 1]);
    }
  }

  /** A builder that is built on after a request has resolved it: what the request renders does not move. */
  method ResolveThenBuild(b: SelectBuilder, schema: Schema, m: Mode, i: nat, e: Expr)
    returns (r: Result<SelectBuilder, Error>, ghost rendered: Expr)
    requires b.Valid() && !b.resolved && i < |b.lists.clauses| && Apart(b.lists)
    modifies b`lists, b.lists.clauses[i].a
    ensures r.Ok? <==> WalkStmt(schema, m, old(b.Model())).Done?
    ensures r.Ok? ==> rendered == WalkStmt(schema, m, old(b.Model())).value
    ensures r.Ok? && r.value != b ==> r.value.Valid() && Select(r.value.Model()) == rendered
  {
    hide WalkStmt, Ons, JoinsOf, WithAdded, Flat;
    r := b.ResolveCtx(schema, m);
    rendered := Nil;
    if r.Ok? && r.value != b {
      rendered := Select(r.value.Model());
      label before:
      b.Append(i, e);
      assert forall j :: 0 <= j < |r.value.lists.clauses| ==>
          Contents(r.value.lists.clauses[j]) == old@before(Contents(r.value.lists.clauses[j]));
      FlatKept@before(r.value.lists.clauses);
    } else if r.Ok? {
      rendered := Select(b.Model());
      b.Append(i, e);
    }
  }
}
