/**
  Keyset pagination: the generated WHERE against the order its ORDER BY asks for,
  under SQL's three-valued logic.
 */
module Keyset {
  import opened Wrappers
  import opened ThreeValued

  /** A column's value; None is NULL. Values of one column compare as integers do. */
  type Cell = Option<int>
  type Row = map<string, Cell>

  datatype Nulls = NullsDefault | NullsFirst | NullsLast
  datatype Key = Key(col: string, desc: bool, nulls: Nulls, nullable: bool)

  /** A column the row does not have reads as NULL. */
  function CellOf(row: Row, col: string): (c: Cell)
    ensures forall x :: c == Some(x) <==> col in row && row[col] == Some(x)
  {
    if col in row then row[col] else None
  }

  function CellsOf(keys: seq<Key>, row: Row): seq<Cell> {
    seq(|keys|, i requires 0 <= i < |keys| => CellOf(row, keys[i].col))
  }

  // ------------------------------------------------------------- what ORDER BY means

  datatype NullsClause = NullsFirstClause | NullsLastClause

  /** One rendered ORDER BY term. */
  datatype Term = Term(col: string, desc: bool, nulls: Option<NullsClause>)

  /** Without a clause NULLs go to the end, whichever way the values run. */
  predicate CellBefore(t: Term, a: Cell, b: Cell) {
    var nullsFirst := t.nulls == Some(NullsFirstClause);
    match (a, b)
    case (None, None) => false
    case (None, Some(_)) => nullsFirst
    case (Some(_), None) => !nullsFirst
    case (Some(x), Some(y)) => if t.desc then x > y else x < y
  }

  predicate CellsBefore(terms: seq<Term>, a: seq<Cell>, b: seq<Cell>)
    requires |terms| == |a| == |b|
  {
    |terms| > 0 && (CellBefore(terms[0], a[0], b[0]) || (a[0] == b[0] && CellsBefore(terms[1..], a[1..], b[1..])))
  }

  // --------------------------------------------------------------- three-valued logic

  datatype Pred =
    | Never
    | IsNull(col: string)
    | IsNotNull(col: string)
    | Eq(col: string, v: int)
    | Gt(col: string, v: int)
    | Lt(col: string, v: int)
    | And(preds: seq<Pred>)
    | Or(preds: seq<Pred>)

  function Known(b: bool): Truth {
    if b then True else False
  }

  function Compare(c: Cell, holds: int -> bool): Truth {
    match c
    case None => Unknown
    case Some(x) => Known(holds(x))
  }

  function Eval(p: Pred, row: Row): Truth
    decreases p
  {
    match p
    case Never => False
    case IsNull(c) => Known(CellOf(row, c).None?)
    case IsNotNull(c) => Known(CellOf(row, c).Some?)
    case Eq(c, v) => Compare(CellOf(row, c), x => x == v)
    case Gt(c, v) => Compare(CellOf(row, c), x => x > v)
    case Lt(c, v) => Compare(CellOf(row, c), x => x < v)
    case And(ps) => EvalAll(ps, row)
    case Or(ps) => EvalAny(ps, row)
  }

  function EvalAll(ps: seq<Pred>, row: Row): Truth
    decreases ps
  {
    if ps == [] then True else Conjunction(Eval(ps[0], row), EvalAll(ps[1..], row))
  }

  function EvalAny(ps: seq<Pred>, row: Row): Truth
    decreases ps
  {
    if ps == [] then False else Disjunction(Eval(ps[0], row), EvalAny(ps[1..], row))
  }

  lemma {:induction false} AllTrue(ps: seq<Pred>, row: Row)
    ensures EvalAll(ps, row) == True <==> forall i :: 0 <= i < |ps| ==> Eval(ps[i], row) == True
  {
    if ps != [] {
      AllTrue(ps[1..], row);
      assert forall i :: 0 < i < |ps| ==> ps[i] == ps[1..][i - 1];
    }
  }

  lemma {:induction false} AnyTrue(ps: seq<Pred>, row: Row)
    ensures EvalAny(ps, row) == True <==> exists i :: 0 <= i < |ps| && Eval(ps[i], row) == True
  {
    if ps != [] {
      AnyTrue(ps[1..], row);
      assert forall i :: 0 < i < |ps| ==> ps[i] == ps[1..][i - 1];
      if i :| 0 <= i < |ps[1..]| && Eval(ps[1..][i], row) == True {
        assert ps[i + 1] == ps[1..][i];
      }
    }
  }

  // ---------------------------------------------------------------------- the guard

  predicate ComesFirst(k: Key) {
    k.nulls == NullsFirst
  }

  /** Equality on a leading key; NULL has to be matched with IS NULL. */
  function KeysetEq(k: Key, v: Cell): Pred {
    match v
    case None => IsNull(k.col)
    case Some(x) => Eq(k.col, x)
  }

  /** "Strictly past this value" on one key, or None when nothing can be. */
  function KeysetStrict(k: Key, v: Cell, forward: bool): Option<Pred> {
    var asc := if forward then !k.desc else k.desc;
    var first := if forward then ComesFirst(k) else !ComesFirst(k);
    match v
    case None => if first then Some(IsNotNull(k.col)) else None
    case Some(x) =>
      var strict := if asc then Gt(k.col, x) else Lt(k.col, x);
      if !first && k.nullable then Some(Or([strict, IsNull(k.col)])) else Some(strict)
  }

  function EqTerms(keys: seq<Key>, values: seq<Cell>, n: nat): seq<Pred>
    requires n <= |keys| == |values|
  {
    if n == 0 then [] else EqTerms(keys, values, n - 1) + [KeysetEq(keys[n - 1], values[n - 1])]
  }

  function Disjunct(keys: seq<Key>, values: seq<Cell>, forward: bool, i: nat): Option<Pred>
    requires i < |keys| == |values|
  {
    match KeysetStrict(keys[i], values[i], forward)
    case None => None
    case Some(strict) =>
      var ands := EqTerms(keys, values, i) + [strict];
      Some(if |ands| == 1 then ands[0] else And(ands))
  }

  function Disjuncts(keys: seq<Key>, values: seq<Cell>, forward: bool, n: nat): seq<Pred>
    requires n <= |keys| == |values|
  {
    if n == 0 then []
    else
      match Disjunct(keys, values, forward, n - 1)
      case None => Disjuncts(keys, values, forward, n - 1)
      case Some(p) => Disjuncts(keys, values, forward, n - 1) + [p]
  }

  function Guard(keys: seq<Key>, values: seq<Cell>, forward: bool): Pred
    requires |keys| == |values|
  {
    var ors := Disjuncts(keys, values, forward, |keys|);
    if |ors| == 1 then ors[0] else Or(ors)
  }

  /** The row-wise expansion of the lexicographic comparison. */
  method KeysetWhere(keys: seq<Key>, values: seq<Cell>, forward: bool) returns (p: Pred)
    requires |keys| == |values|
    ensures p == Guard(keys, values, forward)
  {
    var ors: seq<Pred> := [];
    for i := 0 to |keys|
      invariant ors == Disjuncts(keys, values, forward, i)
    {
      var strict := KeysetStrict(keys[i], values[i], forward);
      if strict.None? {
        continue;
      }
      var ands: seq<Pred> := [];
      for j := 0 to i
        invariant ands == EqTerms(keys, values, j)
      {
        ands := ands + [KeysetEq(keys[j], values[j])];
      }
      ands := ands + [strict.value];
      ors := ors + [if |ands| == 1 then ands[0] else And(ands)];
    }
    return if |ors| == 1 then ors[0] else Or(ors);
  }

  // -------------------------------------------------------------- what the guard means

  function TermOf(k: Key): Term {
    Term(k.col, k.desc,
         match k.nulls
         case NullsDefault => None
         case NullsFirst => Some(NullsFirstClause)
         case NullsLast => Some(NullsLastClause))
  }

  function TermsOf(keys: seq<Key>): seq<Term> {
    seq(|keys|, i requires 0 <= i < |keys| => TermOf(keys[i]))
  }

  /** Columns the schema does not declare Nullable hold no NULL. */
  ghost predicate Fits(keys: seq<Key>, row: Row) {
    forall i :: 0 <= i < |keys| ==> keys[i].nullable || CellOf(row, keys[i].col).Some?
  }

  predicate Past(k: Key, v: Cell, c: Cell, forward: bool) {
    if forward then CellBefore(TermOf(k), v, c) else CellBefore(TermOf(k), c, v)
  }

  lemma EqMeans(k: Key, v: Cell, row: Row)
    ensures Eval(KeysetEq(k, v), row) == True <==> CellOf(row, k.col) == v
  {
  }

  lemma StrictMeans(k: Key, v: Cell, forward: bool, row: Row)
    requires k.nullable || CellOf(row, k.col).Some?
    ensures var s := KeysetStrict(k, v, forward);
      (s.Some? && Eval(s.value, row) == True) <==> Past(k, v, CellOf(row, k.col), forward)
  {
    var s := KeysetStrict(k, v, forward);
    if s.Some? && s.value.Or? {
      var strict := s.value.preds[0];
      assert s.value.preds == [strict] + [IsNull(k.col)];
      AnyOfSnoc([], strict, row);
      AnyOfSnoc([strict], IsNull(k.col), row);
      assert [] + [strict] == [strict];
    }
  }

  ghost predicate Agree(keys: seq<Key>, values: seq<Cell>, row: Row, n: nat)
    requires n <= |keys| == |values|
  {
    forall j :: 0 <= j < n ==> CellOf(row, keys[j].col) == values[j]
  }

  lemma {:induction false} EqTermsMean(keys: seq<Key>, values: seq<Cell>, n: nat, row: Row)
    requires n <= |keys| == |values|
    ensures |EqTerms(keys, values, n)| == n
    ensures EvalAll(EqTerms(keys, values, n), row) == True <==> Agree(keys, values, row, n)
  {
    if n > 0 {
      EqTermsMean(keys, values, n - 1, row);
      EqMeans(keys[n - 1], values[n - 1], row);
      AllOfSnoc(EqTerms(keys, values, n - 1), KeysetEq(keys[n - 1], values[n - 1]), row);
      hide EvalAll, Eval, KeysetEq;
    }
  }

  /** The i-th disjunct holds exactly when the first i keys tie and the next one is past. */
  lemma DisjunctMeans(keys: seq<Key>, values: seq<Cell>, forward: bool, i: nat, row: Row)
    requires i < |keys| == |values| && Fits(keys, row)
    ensures var d := Disjunct(keys, values, forward, i);
      (d.Some? && Eval(d.value, row) == True) <==>
        (Agree(keys, values, row, i) && Past(keys[i], values[i], CellOf(row, keys[i].col), forward))
  {
    var strict := KeysetStrict(keys[i], values[i], forward);
    StrictMeans(keys[i], values[i], forward, row);
    EqTermsMean(keys, values, i, row);
    if strict.Some? {
      AllOfSnoc(EqTerms(keys, values, i), strict.value, row);
      hide EvalAll, EqTerms, KeysetStrict, Past, Agree;
    }
  }

  ghost predicate PastWithin(keys: seq<Key>, values: seq<Cell>, forward: bool, row: Row, n: nat)
    requires n <= |keys| == |values|
  {
    exists i :: 0 <= i < n && Agree(keys, values, row, i) && Past(keys[i], values[i], CellOf(row, keys[i].col), forward)
  }

  lemma {:induction false} DisjunctsMean(keys: seq<Key>, values: seq<Cell>, forward: bool, n: nat, row: Row)
    requires n <= |keys| == |values| && Fits(keys, row)
    ensures EvalAny(Disjuncts(keys, values, forward, n), row) == True <==> PastWithin(keys, values, forward, row, n)
  {
    hide Past, Agree, Fits, Disjunct;
    if n > 0 {
      DisjunctsMean(keys, values, forward, n - 1, row);
      DisjunctMeans(keys, values, forward, n - 1, row);
      var d := Disjunct(keys, values, forward, n - 1);
      if d.Some? {
        AnyOfSnoc(Disjuncts(keys, values, forward, n - 1), d.value, row);
      }
      hide EvalAny, Eval;
    }
  }

  lemma AllOfSnoc(ps: seq<Pred>, p: Pred, row: Row)
    ensures EvalAll(ps + [p], row) == True <==> EvalAll(ps, row) == True && Eval(p, row) == True
  {
    AllTrue(ps, row);
    AllTrue(ps + [p], row);
    hide Eval, EvalAll;
    assert (ps + [p])[|ps|] == p && forall i :: 0 <= i < |ps| ==> (ps + [p])[i] == ps[i];
  }

  lemma AnyOfSnoc(ps: seq<Pred>, p: Pred, row: Row)
    ensures EvalAny(ps + [p], row) == True <==> EvalAny(ps, row) == True || Eval(p, row) == True
  {
    AnyTrue(ps, row);
    AnyTrue(ps + [p], row);
    hide Eval, EvalAny;
    assert (ps + [p])[|ps|] == p && forall i :: 0 <= i < |ps| ==> (ps + [p])[i] == ps[i];
    if i :| 0 <= i < |ps| && Eval(ps[i], row) == True {
      assert Eval((ps + [p])[i], row) == True;
    }
  }

  /** The order by terms, unrolled: a tie on the first keys and then a strict step. */
  lemma {:induction false} CellsBeforeMeans(terms: seq<Term>, a: seq<Cell>, b: seq<Cell>)
    requires |terms| == |a| == |b|
    ensures CellsBefore(terms, a, b) <==>
            exists i :: 0 <= i < |terms| && a[..i] == b[..i] && CellBefore(terms[i], a[i], b[i])
  {
    hide CellBefore;
    if terms != [] {
      var (ts, x, y) := (terms[1..], a[1..], b[1..]);
      CellsBeforeMeans(ts, x, y);
      if CellBefore(terms[0], a[0], b[0]) {
        assert a[..0] == b[..0];
      }
      if a[0] == b[0] && CellsBefore(ts, x, y) {
        var i :| 0 <= i < |ts| && x[..i] == y[..i] && CellBefore(ts[i], x[i], y[i]);
        assert a[..i + 1] == [a[0]] + x[..i] && b[..i + 1] == [b[0]] + y[..i];
        assert CellBefore(terms[i + 1], a[i + 1], b[i + 1]);
      }
      if i :| 0 < i < |terms| && a[..i] == b[..i] && CellBefore(terms[i], a[i], b[i]) {
        assert a[0] == a[..i][0] == b[..i][0] == b[0];
        assert x[..i - 1] == a[..i][1..] && y[..i - 1] == b[..i][1..];
        assert CellBefore(ts[i - 1], x[i - 1], y[i - 1]);
      }
    }
  }

  /** Where a row stands against a cursor in the order the same spec sorts by. */
  predicate Beyond(keys: seq<Key>, values: seq<Cell>, row: Row, forward: bool)
    requires |keys| == |values|
  {
    if forward then CellsBefore(TermsOf(keys), values, CellsOf(keys, row))
    else CellsBefore(TermsOf(keys), CellsOf(keys, row), values)
  }

  lemma BeyondMeans(keys: seq<Key>, values: seq<Cell>, row: Row, forward: bool)
    requires |keys| == |values|
    ensures Beyond(keys, values, row, forward) <==> PastWithin(keys, values, forward, row, |keys|)
  {
    var (terms, cells) := (TermsOf(keys), CellsOf(keys, row));
    if forward {
      CellsBeforeMeans(terms, values, cells);
    } else {
      CellsBeforeMeans(terms, cells, values);
    }
    hide CellsBefore, CellBefore;
    forall i | 0 <= i < |keys| ensures Agree(keys, values, row, i) <==> values[..i] == cells[..i] {
      AgreeIsPrefix(keys, values, row, i);
    }
  }

  lemma AgreeIsPrefix(keys: seq<Key>, values: seq<Cell>, row: Row, i: nat)
    requires i <= |keys| == |values|
    ensures Agree(keys, values, row, i) <==> values[..i] == CellsOf(keys, row)[..i]
  {
    var cells := CellsOf(keys, row);
    if values[..i] == cells[..i] {
      forall j | 0 <= j < i ensures CellOf(row, keys[j].col) == values[j] {
        assert values[j] == values[..i][j] == cells[..i][j];
      }
    }
  }

  /** The guard is true of exactly the rows strictly after the cursor, or before it when paging back. */
  lemma GuardExact(keys: seq<Key>, values: seq<Cell>, forward: bool, row: Row)
    requires |keys| == |values| && Fits(keys, row)
    ensures Eval(Guard(keys, values, forward), row) == True <==> Beyond(keys, values, row, forward)
  {
    hide Beyond, PastWithin, Fits, Disjuncts;
    BeyondMeans(keys, values, row, forward);
    DisjunctsMean(keys, values, forward, |keys|, row);
    var ors := Disjuncts(keys, values, forward, |keys|);
    if |ors| == 1 {
      assert ors == [] + [ors[0]];
      AnyOfSnoc([], ors[0], row);
    }
  }
}
