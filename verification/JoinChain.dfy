/**
  Joins over combined rows: what each join kind returns for a condition, and how
  filtering the inputs relates to filtering the output.
 */
module JoinChain {
  import opened Wrappers

  type Row = map<string, int>

  /** One slot per table instance; `None` is the NULL extension of an outer join. */
  type Combined = seq<Option<Row>>

  datatype JoinKind = Inner | Left | Right | Full | Any | All | Asof

  datatype JoinError = FullJoinScoped | AsofJoinScoped

  /** What the code refuses to place: request-time filters on either side of a FULL JOIN, or under an ASOF JOIN. */
  function RefusedJoin(kind: JoinKind, joinedScoped: bool, fromScoped: bool): Option<JoinError> {
    if kind == Full && (joinedScoped || fromScoped) then Some(FullJoinScoped)
    else if kind == Asof && joinedScoped then Some(AsofJoinScoped)
    else None
  }

  /** ANY and ASOF keep one match per left row; the server decides which. */
  type Pick = (nat, Combined, seq<Row>) -> nat

  function Keep(p: Combined -> bool, cs: seq<Combined>): seq<Combined> {
    if cs == [] then [] else if p(cs[0]) then [cs[0]] + Keep(p, cs[1..]) else Keep(p, cs[1..])
  }

  function KeepRows(p: Row -> bool, rows: seq<Row>): seq<Row> {
    if rows == [] then [] else if p(rows[0]) then [rows[0]] + KeepRows(p, rows[1..]) else KeepRows(p, rows[1..])
  }

  function FromRows(rows: seq<Row>): (cs: seq<Combined>)
    ensures |cs| == |rows| && forall i :: 0 <= i < |rows| ==> cs[i] == [Some(rows[i])]
  {
    seq(|rows|, i requires 0 <= i < |rows| => [Some(rows[i])])
  }

  function Matches(l: Combined, right: seq<Row>, on: Combined -> bool): seq<Row> {
    if right == [] then []
    else if on(l + [Some(right[0])]) then [right[0]] + Matches(l, right[1..], on)
    else Matches(l, right[1..], on)
  }

  function LeftMatches(left: seq<Combined>, r: Row, on: Combined -> bool): seq<Combined> {
    if left == [] then []
    else if on(left[0] + [Some(r)]) then [left[0]] + LeftMatches(left[1..], r, on)
    else LeftMatches(left[1..], r, on)
  }

  function Extend(l: Combined, rs: seq<Row>): (cs: seq<Combined>)
    ensures |cs| == |rs| && forall i :: 0 <= i < |rs| ==> cs[i] == l + [Some(rs[i])]
  {
    seq(|rs|, i requires 0 <= i < |rs| => l + [Some(rs[i])])
  }

  function Attach(ls: seq<Combined>, r: Row): (cs: seq<Combined>)
    ensures |cs| == |ls| && forall i :: 0 <= i < |ls| ==> cs[i] == ls[i] + [Some(r)]
  {
    seq(|ls|, i requires 0 <= i < |ls| => ls[i] + [Some(r)])
  }

  function Nulls(n: nat): (c: Combined)
    ensures |c| == n && forall i :: 0 <= i < n ==> c[i] == None
  {
    seq(n, _ => None)
  }

  function Choose(pick: Pick, i: nat, l: Combined, ms: seq<Row>): (r: Row)
    requires ms != []
    ensures r in ms
  {
    var k := pick(i, l, ms);
    if k < |ms| then ms[k] else ms[0]
  }

  /** Each of the matches is what some choice keeps. */
  lemma AnyMatchMayBeKept(i: nat, l: Combined, ms: seq<Row>, k: nat)
    requires k < |ms|
    ensures exists pick: Pick :: Choose(pick, i, l, ms) == ms[k]
  {
    var pick: Pick := (j, left, matches) => k;
    assert Choose(pick, i, l, ms) == ms[k];
  }

  /** What one left row contributes, given the right rows its ON clause accepts. */
  function PerLeft(kind: JoinKind, pick: Pick, i: nat, l: Combined, ms: seq<Row>): seq<Combined> {
    match kind
    case Left | Full => if ms == [] then [l + [None]] else Extend(l, ms)
    case Any | Asof => if ms == [] then [] else [l + [Some(Choose(pick, i, l, ms))]]
    case _ => Extend(l, ms)
  }

  function LeftDriven(kind: JoinKind, pick: Pick, i: nat, left: seq<Combined>, right: seq<Row>, on: Combined -> bool)
    : seq<Combined>
  {
    if left == [] then []
    else PerLeft(kind, pick, i, left[0], Matches(left[0], right, on)) + LeftDriven(kind, pick, i, left[1..], right, on)
  }

  function PerRight(i: nat, ls: seq<Combined>, r: Row): seq<Combined> {
    if ls == [] then [Nulls(i + 1) + [Some(r)]] else Attach(ls, r)
  }

  /** RIGHT JOIN: every right row once per match, or once NULL-extended. */
  function RightDriven(i: nat, left: seq<Combined>, right: seq<Row>, on: Combined -> bool): seq<Combined> {
    if right == [] then []
    else PerRight(i, LeftMatches(left, right[0], on), right[0]) + RightDriven(i, left, right[1..], on)
  }

  function UnmatchedRight(i: nat, left: seq<Combined>, right: seq<Row>, on: Combined -> bool): seq<Combined> {
    if right == [] then []
    else if LeftMatches(left, right[0], on) == [] then
      [Nulls(i + 1) + [Some(right[0])]] + UnmatchedRight(i, left, right[1..], on)
    else UnmatchedRight(i, left, right[1..], on)
  }

  lemma {:induction false} LeftMatchesExact(left: seq<Combined>, r: Row, on: Combined -> bool, l: Combined)
    ensures l in LeftMatches(left, r, on) <==> l in left && on(l + [Some(r)])
  {
    if left != [] {
      LeftMatchesExact(left[1..], r, on, l);
      assert left == [left[0]] + left[1..];
    }
  }

  /** FULL JOIN adds every right row that no left row matches, NULL-extended. */
  lemma {:induction false} UnmatchedExact(i: nat, left: seq<Combined>, right: seq<Row>, on: Combined -> bool, r: Row)
    ensures Nulls(i + 1) + [Some(r)] in UnmatchedRight(i, left, right, on) <==>
            r in right && forall l :: l in left ==> !on(l + [Some(r)])
  {
    if right != [] {
      UnmatchedExact(i, left, right[1..], on, r);
      assert right == [right[0]] + right[1..];
      var matching := LeftMatches(left, right[0], on);
      forall l ensures l in matching <==> l in left && on(l + [Some(right[0])]) {
        LeftMatchesExact(left, right[0], on, l);
      }
      assert matching != [] ==> matching[0] in matching;
      assert (Nulls(i + 1) + [Some(r)])[i + 1] == Some(r);
      assert (Nulls(i + 1) + [Some(right[0])])[i + 1] == Some(right[0]);
    }
  }

  /** RIGHT JOIN keeps every right row: once for each left row it matches, or NULL-extended where there is none. */
  lemma {:induction false} RightExact(i: nat, left: seq<Combined>, right: seq<Row>, on: Combined -> bool, c: Combined)
    ensures c in RightDriven(i, left, right, on) <==>
            exists r :: r in right && FromRight(i, left, r, on, c)
  {
    if right != [] {
      RightExact(i, left, right[1..], on, c);
      var r := right[0];
      assert right == [r] + right[1..];
      var matching := LeftMatches(left, r, on);
      forall l ensures l in matching <==> l in left && on(l + [Some(r)]) {
        LeftMatchesExact(left, r, on, l);
      }
      assert matching != [] ==> matching[0] in matching;
      assert c in Attach(matching, r) <==> exists l :: l in matching && c == l + [Some(r)] by {
        forall l | l in matching ensures l + [Some(r)] in Attach(matching, r) {
          var k :| 0 <= k < |matching| && matching[k] == l;
          assert Attach(matching, r)[k] == l + [Some(r)];
        }
      }
      assert c in PerRight(i, matching, r) <==> FromRight(i, left, r, on, c);
    }
  }

  ghost predicate FromRight(i: nat, left: seq<Combined>, r: Row, on: Combined -> bool, c: Combined) {
    || (exists l :: l in left && on(l + [Some(r)]) && c == l + [Some(r)])
    || (c == Nulls(i + 1) + [Some(r)] && forall l :: l in left ==> !on(l + [Some(r)]))
  }

  /** Join number i: `left` rows carry i + 1 instances. */
  function JoinStep(kind: JoinKind, pick: Pick, i: nat, left: seq<Combined>, right: seq<Row>, on: Combined -> bool)
    : seq<Combined>
  {
    match kind
    case Right => RightDriven(i, left, right, on)
    case Full => LeftDriven(Full, pick, i, left, right, on) + UnmatchedRight(i, left, right, on)
    case _ => LeftDriven(kind, pick, i, left, right, on)
  }

  /** A whole chain: join i is `step(i, rows so far)`. */
  function Chain(base: seq<Combined>, step: (nat, seq<Combined>) -> seq<Combined>, n: nat): seq<Combined> {
    if n == 0 then base else step(n - 1, Chain(base, step, n - 1))
  }

  // ------------------------------------------------------------------- algebra

  ghost predicate Width(n: nat, cs: seq<Combined>) {
    forall k :: 0 <= k < |cs| ==> |cs[k]| == n
  }

  /** p' of a row extended by x is p of the row and q of x. */
  ghost predicate Splits(n: nat, p': Combined -> bool, p: Combined -> bool, q: Option<Row> -> bool) {
    forall l: Combined, x: Option<Row> :: |l| == n ==> (p'(l + [x]) <==> p(l) && q(x))
  }

  lemma {:induction false} KeepConcat(p: Combined -> bool, a: seq<Combined>, b: seq<Combined>)
    ensures Keep(p, a + b) == Keep(p, a) + Keep(p, b)
  {
    if a == [] {
      assert a + b == b;
    } else {
      assert (a + b)[1..] == a[1..] + b;
      KeepConcat(p, a[1..], b);
    }
  }

  lemma {:induction false} KeepAll(p: Combined -> bool, cs: seq<Combined>)
    requires forall k :: 0 <= k < |cs| ==> p(cs[k])
    ensures Keep(p, cs) == cs
  {
    if cs != [] {
      KeepAll(p, cs[1..]);
    }
  }

  lemma {:induction false} KeepNone(p: Combined -> bool, cs: seq<Combined>)
    requires forall k :: 0 <= k < |cs| ==> !p(cs[k])
    ensures Keep(p, cs) == []
  {
    if cs != [] {
      KeepNone(p, cs[1..]);
    }
  }

  lemma {:induction false} KeepTwice(n: nat, both: Combined -> bool, outer: Combined -> bool, inner: Combined -> bool,
                                     cs: seq<Combined>)
    requires Width(n, cs)
    requires forall c: Combined :: |c| == n ==> (both(c) <==> outer(c) && inner(c))
    ensures Keep(both, cs) == Keep(outer, Keep(inner, cs))
  {
    if cs != [] {
      KeepTwice(n, both, outer, inner, cs[1..]);
      if inner(cs[0]) {
        assert Keep(inner, cs)[1..] == Keep(inner, cs[1..]);
      }
    }
  }

  lemma {:induction false} KeepFrom(p: Combined -> bool, q: Option<Row> -> bool, vis: Row -> bool, rows: seq<Row>)
    requires forall x: Option<Row> :: p([x]) == q(x)
    requires forall r: Row :: vis(r) == q(Some(r))
    ensures Keep(p, FromRows(rows)) == FromRows(KeepRows(vis, rows))
  {
    if rows != [] {
      KeepFrom(p, q, vis, rows[1..]);
      assert FromRows(rows) == [[Some(rows[0])]] + FromRows(rows[1..]);
      var rest := KeepRows(vis, rows[1..]);
      assert FromRows([rows[0]] + rest) == [[Some(rows[0])]] + FromRows(rest);
    }
  }

  lemma {:induction false} SameMatches(l: Combined, right: seq<Row>, on: Combined -> bool,
                                       on': Combined -> bool, vis: Row -> bool)
    requires forall r: Row :: on(l + [Some(r)]) <==> on'(l + [Some(r)]) && vis(r)
    ensures Matches(l, right, on) == Matches(l, KeepRows(vis, right), on')
  {
    if right != [] {
      SameMatches(l, right[1..], on, on', vis);
      if vis(right[0]) {
        assert KeepRows(vis, right)[1..] == KeepRows(vis, right[1..]);
      }
    }
  }

  lemma {:induction false} ExtendKeep(l: Combined, right: seq<Row>, on: Combined -> bool, on': Combined -> bool,
                                      vis: Row -> bool, p': Combined -> bool, pl: bool)
    requires forall r: Row :: on(l + [Some(r)]) <==> on'(l + [Some(r)])
    requires forall r: Row :: p'(l + [Some(r)]) <==> pl && vis(r)
    ensures Keep(p', Extend(l, Matches(l, right, on))) ==
            if pl then Extend(l, Matches(l, KeepRows(vis, right), on')) else []
  {
    if right != [] {
      var r := right[0];
      var all, shown := Matches(l, right[1..], on), Matches(l, KeepRows(vis, right[1..]), on');
      ExtendKeep(l, right[1..], on, on', vis, p', pl);
      ExtendCons(l, r, all);
      ExtendCons(l, r, shown);
      assert ([r] + KeepRows(vis, right[1..]))[1..] == KeepRows(vis, right[1..]);
      assert ([l + [Some(r)]] + Extend(l, all))[1..] == Extend(l, all);
    }
  }

  lemma ExtendCons(l: Combined, r: Row, rs: seq<Row>)
    ensures Extend(l, [r] + rs) == [l + [Some(r)]] + Extend(l, rs)
  {
  }

  /** Filtering both inputs of an inner join is filtering its output by both. */
  lemma {:induction false} InnerKeep(kind: JoinKind, pick: Pick, i: nat, left: seq<Combined>, right: seq<Row>,
                                     on: Combined -> bool, on': Combined -> bool, vis: Row -> bool,
                                     p: Combined -> bool, p': Combined -> bool, q: Option<Row> -> bool)
    requires kind == Inner || kind == All
    requires forall l: Combined, r: Row :: |l| == i + 1 ==> (on(l + [Some(r)]) <==> on'(l + [Some(r)]))
    requires Width(i + 1, left) && Splits(i + 1, p', p, q)
    requires forall r: Row :: vis(r) == q(Some(r))
    ensures Keep(p', LeftDriven(kind, pick, i, left, right, on)) ==
            LeftDriven(kind, pick, i, Keep(p, left), KeepRows(vis, right), on')
  {
    if left != [] {
      var l := left[0];
      InnerKeep(kind, pick, i, left[1..], right, on, on', vis, p, p', q);
      ExtendKeep(l, right, on, on', vis, p', p(l));
      KeepConcat(p', Extend(l, Matches(l, right, on)), LeftDriven(kind, pick, i, left[1..], right, on));
      if p(l) {
        assert Keep(p, left)[1..] == Keep(p, left[1..]);
      }
    }
  }

  /** Every row one left row contributes is that row and one more slot. */
  lemma PerLeftExtends(kind: JoinKind, pick: Pick, i: nat, l: Combined, ms: seq<Row>)
    ensures var cs := PerLeft(kind, pick, i, l, ms);
            forall k :: 0 <= k < |cs| ==> |cs[k]| == |l| + 1 && cs[k] == l + [cs[k][|l|]]
  {
  }

  lemma PerLeftKeep(kind: JoinKind, pick: Pick, i: nat, l: Combined, ms: seq<Row>, p': Combined -> bool, keep: bool)
    requires forall x: Option<Row> :: p'(l + [x]) == keep
    ensures Keep(p', PerLeft(kind, pick, i, l, ms)) == if keep then PerLeft(kind, pick, i, l, ms) else []
  {
    PerLeftExtends(kind, pick, i, l, ms);
    hide PerLeft;
    if keep {
      KeepAll(p', PerLeft(kind, pick, i, l, ms));
    } else {
      KeepNone(p', PerLeft(kind, pick, i, l, ms));
    }
  }

  lemma LeftDrivenCons(kind: JoinKind, pick: Pick, i: nat, l: Combined, left: seq<Combined>, right: seq<Row>,
                       on: Combined -> bool)
    ensures LeftDriven(kind, pick, i, [l] + left, right, on) ==
            PerLeft(kind, pick, i, l, Matches(l, right, on)) + LeftDriven(kind, pick, i, left, right, on)
  {
    hide PerLeft, Matches;
    assert ([l] + left)[1..] == left;
  }

  /** Where the ON clause already filters the right rows, only the left filter is left to apply. */
  lemma {:induction false} OwnOnKeep(kind: JoinKind, pick: Pick, i: nat, left: seq<Combined>, right: seq<Row>,
                                     on: Combined -> bool, on': Combined -> bool, vis: Row -> bool,
                                     p: Combined -> bool, p': Combined -> bool)
    requires kind == Left || kind == Any || kind == Asof || kind == Full
    requires Width(i + 1, left)
    requires forall l: Combined, r: Row :: |l| == i + 1 ==> (on(l + [Some(r)]) <==> on'(l + [Some(r)]) && vis(r))
    requires forall l: Combined, x: Option<Row> :: |l| == i + 1 ==> p'(l + [x]) == p(l)
    ensures Keep(p', LeftDriven(kind, pick, i, left, right, on)) ==
            LeftDriven(kind, pick, i, Keep(p, left), KeepRows(vis, right), on')
  {
    if left != [] {
      hide LeftDriven, Matches, KeepRows, PerLeft;
      var l, rest := left[0], left[1..];
      assert left == [l] + rest;
      OwnOnKeep(kind, pick, i, rest, right, on, on', vis, p, p');
      SameMatches(l, right, on, on', vis);
      PerLeftKeep(kind, pick, i, l, Matches(l, right, on), p', p(l));
      LeftDrivenCons(kind, pick, i, l, rest, right, on);
      LeftDrivenCons(kind, pick, i, l, Keep(p, rest), KeepRows(vis, right), on');
      KeepConcat(p', PerLeft(kind, pick, i, l, Matches(l, right, on)), LeftDriven(kind, pick, i, rest, right, on));
    }
  }

  lemma {:induction false} SameLeftMatches(i: nat, left: seq<Combined>, r: Row, on: Combined -> bool,
                                           on': Combined -> bool, p: Combined -> bool)
    requires Width(i + 1, left)
    requires forall l: Combined :: |l| == i + 1 ==> (on(l + [Some(r)]) <==> on'(l + [Some(r)]) && p(l))
    ensures LeftMatches(left, r, on) == LeftMatches(Keep(p, left), r, on')
    ensures Width(i + 1, LeftMatches(left, r, on))
  {
    if left != [] {
      SameLeftMatches(i, left[1..], r, on, on', p);
      if p(left[0]) {
        assert Keep(p, left)[1..] == Keep(p, left[1..]);
      }
    }
  }

  lemma PerRightKeep(i: nat, ls: seq<Combined>, r: Row, p': Combined -> bool, keep: bool)
    requires Width(i + 1, ls)
    requires forall l: Combined :: |l| == i + 1 ==> (p'(l + [Some(r)]) <==> keep)
    ensures Keep(p', PerRight(i, ls, r)) == if keep then PerRight(i, ls, r) else []
  {
    var cs := PerRight(i, ls, r);
    forall k | 0 <= k < |cs| ensures p'(cs[k]) == keep {
      assert cs[k] == (if ls == [] then Nulls(i + 1) else ls[k]) + [Some(r)];
    }
    if keep {
      KeepAll(p', cs);
    } else {
      KeepNone(p', cs);
    }
  }

  /** The rows a RIGHT JOIN returns for its first right row, if that row is kept. */
  ghost function Head(i: nat, left: seq<Combined>, r: Row, on: Combined -> bool, keep: bool): seq<Combined> {
    if keep then PerRight(i, LeftMatches(left, r, on), r) else []
  }

  lemma HeadSame(i: nat, left: seq<Combined>, left': seq<Combined>, r: Row, on: Combined -> bool,
                 on': Combined -> bool, keep: bool)
    requires LeftMatches(left, r, on) == LeftMatches(left', r, on')
    ensures Head(i, left, r, on, keep) == Head(i, left', r, on', keep)
  {
  }

  lemma RightHead(i: nat, left: seq<Combined>, right: seq<Row>, on: Combined -> bool, p': Combined -> bool, keep: bool)
    requires right != [] && Width(i + 1, LeftMatches(left, right[0], on))
    requires forall l: Combined :: |l| == i + 1 ==> (p'(l + [Some(right[0])]) <==> keep)
    ensures Keep(p', RightDriven(i, left, right, on)) ==
            Head(i, left, right[0], on, keep) + Keep(p', RightDriven(i, left, right[1..], on))
  {
    var r := right[0];
    var first := PerRight(i, LeftMatches(left, r, on), r);
    PerRightKeep(i, LeftMatches(left, r, on), r, p', keep);
    KeepConcat(p', first, RightDriven(i, left, right[1..], on));
  }

  lemma RightRows(i: nat, left: seq<Combined>, right: seq<Row>, on: Combined -> bool, vis: Row -> bool)
    requires right != []
    ensures RightDriven(i, left, KeepRows(vis, right), on) ==
            Head(i, left, right[0], on, vis(right[0])) + RightDriven(i, left, KeepRows(vis, right[1..]), on)
  {
    if vis(right[0]) {
      var shown := KeepRows(vis, right[1..]);
      assert ([right[0]] + shown)[1..] == shown;
    }
  }

  /** A left filter written into a RIGHT JOIN's ON filters the left input before rows are preserved. */
  lemma {:induction false} RightKeep(i: nat, left: seq<Combined>, right: seq<Row>, on: Combined -> bool,
                                     on': Combined -> bool, vis: Row -> bool, p: Combined -> bool, p': Combined -> bool)
    requires Width(i + 1, left)
    requires forall l: Combined, r: Row :: |l| == i + 1 ==> (on(l + [Some(r)]) <==> on'(l + [Some(r)]) && p(l))
    requires forall l: Combined, r: Row :: |l| == i + 1 ==> (p'(l + [Some(r)]) <==> vis(r))
    ensures Keep(p', RightDriven(i, left, right, on)) == RightDriven(i, Keep(p, left), KeepRows(vis, right), on')
  {
    if right != [] {
      hide *;
      var r := right[0];
      assert Head(i, left, r, on, vis(r)) == Head(i, Keep(p, left), r, on', vis(r))
        && Width(i + 1, LeftMatches(left, r, on)) by {
        SameLeftMatches(i, left, r, on, on', p);
        HeadSame(i, left, Keep(p, left), r, on, on', vis(r));
      }
      RightHead(i, left, right, on, p', vis(r));
      RightRows(i, Keep(p, left), right, on', vis);
      RightKeep(i, left, right[1..], on, on', vis, p, p');
    }
  }

  lemma {:induction false} KeepRowsAll(vis: Row -> bool, rows: seq<Row>)
    requires forall r: Row :: vis(r)
    ensures KeepRows(vis, rows) == rows
  {
    if rows != [] {
      KeepRowsAll(vis, rows[1..]);
    }
  }

  lemma {:induction false} UnmatchedAll(i: nat, left: seq<Combined>, right: seq<Row>, on: Combined -> bool,
                                        p': Combined -> bool)
    requires forall r: Row :: p'(Nulls(i + 1) + [Some(r)])
    ensures Keep(p', UnmatchedRight(i, left, right, on)) == UnmatchedRight(i, left, right, on)
  {
    hide LeftMatches;
    if right != [] {
      var rest := UnmatchedRight(i, left, right[1..], on);
      UnmatchedAll(i, left, right[1..], on, p');
      assert ([Nulls(i + 1) + [Some(right[0])]] + rest)[1..] == rest;
    }
  }

  lemma {:induction false} UnmatchedSame(i: nat, left: seq<Combined>, right: seq<Row>, on: Combined -> bool,
                                         on': Combined -> bool, p: Combined -> bool)
    requires Width(i + 1, left)
    requires forall l: Combined, r: Row :: |l| == i + 1 ==> (on(l + [Some(r)]) <==> on'(l + [Some(r)]) && p(l))
    ensures UnmatchedRight(i, left, right, on) == UnmatchedRight(i, Keep(p, left), right, on')
  {
    hide LeftMatches, Keep;
    if right != [] {
      UnmatchedSame(i, left, right[1..], on, on', p);
      SameLeftMatches(i, left, right[0], on, on', p);
    }
  }

  /** If every join commutes with its filter, so does the chain. */
  lemma {:induction false} ChainKeep(base: seq<Combined>, base': seq<Combined>,
                                     step: (nat, seq<Combined>) -> seq<Combined>,
                                     step': (nat, seq<Combined>) -> seq<Combined>,
                                     keep: nat -> Combined -> bool, n: nat, total: nat)
    requires n <= total
    requires Width(1, base) && base' == Keep(keep(0), base)
    requires forall i: nat, left: seq<Combined> :: i < total && Width(i + 1, left) ==>
               Width(i + 2, step(i, left)) && Keep(keep(i + 1), step(i, left)) == step'(i, Keep(keep(i), left))
    ensures Width(n + 1, Chain(base, step, n))
    ensures Chain(base', step', n) == Keep(keep(n), Chain(base, step, n))
  {
    if n > 0 {
      ChainKeep(base, base', step, step', keep, n - 1, total);
    }
  }

  // ------------------------------------------------------- membership of a join

  /** A row of a join is a left row extended, or a right row NULL-extended. */
  ghost predicate From(i: nat, left: seq<Combined>, right: seq<Row>, c: Combined) {
    && |c| > 0
    && (c[..|c| - 1] in left || c[..|c| - 1] == Nulls(i + 1))
    && (c[|c| - 1].Some? ==> c[|c| - 1].value in right)
  }

  lemma {:induction false} MatchesIn(l: Combined, right: seq<Row>, on: Combined -> bool, r: Row)
    requires r in Matches(l, right, on)
    ensures r in right
  {
    if r != right[0] || !on(l + [Some(r)]) {
      MatchesIn(l, right[1..], on, r);
    }
  }

  lemma {:induction false} LeftMatchesIn(left: seq<Combined>, r: Row, on: Combined -> bool, l: Combined)
    ensures l in LeftMatches(left, r, on) <==> l in left && on(l + [Some(r)])
  {
    if left != [] {
      LeftMatchesIn(left[1..], r, on, l);
      assert l in left <==> l == left[0] || l in left[1..];
    }
  }

  lemma {:induction false} KeepIn(p: Combined -> bool, cs: seq<Combined>, c: Combined)
    ensures c in Keep(p, cs) <==> c in cs && p(c)
  {
    if cs != [] {
      KeepIn(p, cs[1..], c);
      assert c in cs <==> c == cs[0] || c in cs[1..];
    }
  }

  lemma {:induction false} LeftDrivenFrom(kind: JoinKind, pick: Pick, i: nat, left: seq<Combined>, right: seq<Row>,
                                          on: Combined -> bool, c: Combined)
    requires c in LeftDriven(kind, pick, i, left, right, on)
    ensures From(i, left, right, c)
  {
    var l := left[0];
    var ms := Matches(l, right, on);
    var first := PerLeft(kind, pick, i, l, ms);
    if c in first {
      PerLeftExtends(kind, pick, i, l, ms);
      assert c[..|l|] == l && l in left;
      if c[|l|].Some? {
        assert c[|l|].value in ms;
        MatchesIn(l, right, on, c[|l|].value);
      }
    } else {
      LeftDrivenFrom(kind, pick, i, left[1..], right, on, c);
    }
  }

  lemma {:induction false} RightDrivenFrom(i: nat, left: seq<Combined>, right: seq<Row>, on: Combined -> bool,
      c: Combined)
    requires c in RightDriven(i, left, right, on)
    ensures From(i, left, right, c)
  {
    var r := right[0];
    var ls := LeftMatches(left, r, on);
    if c in PerRight(i, ls, r) {
      if ls == [] {
        assert c[..i + 1] == Nulls(i + 1);
      } else {
        var k :| 0 <= k < |ls| && c == ls[k] + [Some(r)];
        assert c[..|c| - 1] == ls[k] && ls[k] in ls;
        LeftMatchesIn(left, r, on, ls[k]);
      }
    } else {
      RightDrivenFrom(i, left, right[1..], on, c);
    }
  }

  lemma {:induction false} UnmatchedFrom(i: nat, left: seq<Combined>, right: seq<Row>, on: Combined -> bool,
      c: Combined)
    requires c in UnmatchedRight(i, left, right, on)
    ensures From(i, left, right, c)
  {
    if LeftMatches(left, right[0], on) != [] || c != Nulls(i + 1) + [Some(right[0])] {
      UnmatchedFrom(i, left, right[1..], on, c);
    } else {
      assert c[..i + 1] == Nulls(i + 1);
    }
  }

  lemma StepFrom(kind: JoinKind, pick: Pick, i: nat, left: seq<Combined>, right: seq<Row>,
                 on: Combined -> bool, c: Combined)
    requires c in JoinStep(kind, pick, i, left, right, on)
    ensures From(i, left, right, c)
  {
    if kind == Right {
      RightDrivenFrom(i, left, right, on, c);
    } else if kind == Full && c !in LeftDriven(Full, pick, i, left, right, on) {
      UnmatchedFrom(i, left, right, on, c);
    } else {
      LeftDrivenFrom(kind, pick, i, left, right, on, c);
    }
  }

  lemma StepWidth(kind: JoinKind, pick: Pick, i: nat, left: seq<Combined>, right: seq<Row>, on: Combined -> bool)
    requires Width(i + 1, left)
    ensures Width(i + 2, JoinStep(kind, pick, i, left, right, on))
  {
    var cs := JoinStep(kind, pick, i, left, right, on);
    forall k | 0 <= k < |cs| ensures |cs[k]| == i + 2 {
      StepFrom(kind, pick, i, left, right, on, cs[k]);
    }
  }

  lemma {:induction false} LeftDrivenHas(kind: JoinKind, pick: Pick, i: nat, left: seq<Combined>, right: seq<Row>,
                                         on: Combined -> bool, l: Combined, c: Combined)
    requires l in left && c in PerLeft(kind, pick, i, l, Matches(l, right, on))
    ensures c in LeftDriven(kind, pick, i, left, right, on)
  {
    if l != left[0] {
      LeftDrivenHas(kind, pick, i, left[1..], right, on, l, c);
    }
  }

  /** Against a one-row table whose pairing is accepted, every left row survives any join kind. */
  lemma StepKeeps(kind: JoinKind, pick: Pick, i: nat, left: seq<Combined>, r: Row, on: Combined -> bool, l: Combined)
    requires l in left && on(l + [Some(r)])
    ensures l + [Some(r)] in JoinStep(kind, pick, i, left, [r], on)
  {
    var c := l + [Some(r)];
    assert Matches(l, [r], on) == [r];
    if kind == Right {
      LeftMatchesIn(left, r, on, l);
      var ls := LeftMatches(left, r, on);
      var k :| 0 <= k < |ls| && ls[k] == l;
      assert Attach(ls, r)[k] == c;
      assert RightDriven(i, left, [r], on) == PerRight(i, ls, r);
    } else {
      assert Extend(l, [r])[0] == c;
      assert c in PerLeft(kind, pick, i, l, Matches(l, [r], on));
      LeftDrivenHas(kind, pick, i, left, [r], on, l, c);
    }
  }

  /** Where nothing matches, a FULL JOIN keeps both the left rows and the right row, unfiltered. */
  lemma FullKeepsUnmatched(pick: Pick, i: nat, left: seq<Combined>, r: Row, on: Combined -> bool)
    requires forall l :: l in left ==> !on(l + [Some(r)])
    ensures forall l :: l in left ==> l + [None] in JoinStep(Full, pick, i, left, [r], on)
    ensures Nulls(i + 1) + [Some(r)] in JoinStep(Full, pick, i, left, [r], on)
  {
    forall l | l in left ensures l + [None] in JoinStep(Full, pick, i, left, [r], on) {
      assert Matches(l, [r], on) == [];
      LeftDrivenHas(Full, pick, i, left, [r], on, l, l + [None]);
    }
    var ls := LeftMatches(left, r, on);
    if ls != [] {
      assert ls[0] in ls;
      LeftMatchesIn(left, r, on, ls[0]);
    }
  }
}
