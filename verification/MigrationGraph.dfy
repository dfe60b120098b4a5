/**
  The migration DAG: Kahn's sort of a subset, and the two reachability closures.
  A graph maps each registered migration to its parents; an unregistered name has none.
 */
module MigrationGraph {
  import opened Wrappers
  import opened StringOrder

  type Graph = map<string, seq<string>>

  function Parents(g: Graph, n: string): seq<string> {
    if n in g then g[n] else []
  }

  // ------------------------------------------------------------ the order, by sets

  /** The members of `names` whose parents within `names` are all done. */
  ghost function Ready(g: Graph, names: set<string>, done: set<string>): set<string> {
    set n | n in names && n !in done && forall p :: p in Parents(g, n) && p in names ==> p in done
  }

  /** Kahn's order with ties broken by name; it stops early when nothing is ready. */
  ghost function Order(g: Graph, names: set<string>, done: set<string>): seq<string>
    decreases names - done
  {
    var ready := Ready(g, names, done);
    if ready == {} then []
    else
      var next := Least(ready);
      [next] + Order(g, names, done + {next})
  }

  /** Each name comes after its parents, given what is already done. */
  ghost predicate Topological(g: Graph, names: set<string>, done: set<string>, s: seq<string>) {
    forall i, p :: 0 <= i < |s| && p in Parents(g, s[i]) && p in names ==> p in done || p in s[..i]
  }

  lemma OrderSound(g: Graph, names: set<string>, done: set<string>)
    ensures var s := Order(g, names, done);
            Distinct(s) && Elements(s) <= names - done && Topological(g, names, done, s)
  {
    OrderDistinct(g, names, done);
    OrderTopological(g, names, done);
  }

  lemma {:induction false} OrderDistinct(g: Graph, names: set<string>, done: set<string>)
    ensures var s := Order(g, names, done); Distinct(s) && Elements(s) <= names - done
    decreases names - done
  {
    var ready := Ready(g, names, done);
    if ready != {} {
      var next := Least(ready);
      var rest := Order(g, names, done + {next});
      assert next in names - done;
      assert Order(g, names, done) == [next] + rest;
      OrderDistinct(g, names, done + {next});
      hide Order, Ready, Least, Elements;
      InElements(rest);
      ElementsCons(next, rest);
    }
  }

  lemma {:induction false} OrderTopological(g: Graph, names: set<string>, done: set<string>)
    ensures Topological(g, names, done, Order(g, names, done))
    decreases names - done
  {
    var ready := Ready(g, names, done);
    if ready != {} {
      var next := Least(ready);
      var rest := Order(g, names, done + {next});
      OrderTopological(g, names, done + {next});
      assert Order(g, names, done) == [next] + rest;
      hide Order, Least;
      var s := [next] + rest;
      forall i, p | 0 <= i < |s| && p in Parents(g, s[i]) && p in names ensures p in done || p in s[..i] {
        if i > 0 {
          assert s[i] == rest[i - 1];
          assert s[..i] == [next] + rest[..i - 1];
          assert p in done + {next} || p in rest[..i - 1];
        }
      }
    }
  }

  /** A closed walk along parent edges inside `names`. */
  ghost predicate IsCycle(g: Graph, names: set<string>, path: seq<string>) {
    && |path| >= 2 && path[0] == path[|path| - 1]
    && IsWalk(g, names, path)
  }

  ghost predicate IsWalk(g: Graph, names: set<string>, path: seq<string>) {
    && (forall i :: 0 <= i < |path| ==> path[i] in names)
    && (forall i :: 0 <= i < |path| - 1 ==> path[i + 1] in Parents(g, path[i]))
  }

  ghost predicate Cyclic(g: Graph, names: set<string>) {
    exists path :: IsCycle(g, names, path)
  }

  /** Where nothing is ready, walks of any length continue among the names left. */
  lemma {:induction false} StuckWalk(g: Graph, names: set<string>, done: set<string>, n: nat)
    returns (path: seq<string>)
    requires Ready(g, names, done) == {} && names - done != {}
    ensures |path| == n + 1 && IsWalk(g, names - done, path)
  {
    if n == 0 {
      var x :| x in names - done;
      path := [x];
    } else {
      var before := StuckWalk(g, names, done, n - 1);
      var last := before[n - 1];
      assert last !in Ready(g, names, done);
      var p :| p in Parents(g, last) && p in names && p !in done;
      path := before + [p];
    }
  }

  lemma {:induction false} Pigeonhole(s: seq<string>, u: set<string>) returns (i: nat, j: nat)
    requires (forall k :: 0 <= k < |s| ==> s[k] in u) && |s| > |u|
    ensures i < j < |s| && s[i] == s[j]
    decreases |u|
  {
    var x := s[0];
    if k: nat :| 1 <= k < |s| && s[k] == x {
      i, j := 0, k;
    } else {
      forall k | 0 <= k < |s[1..]| ensures s[1..][k] in u - {x} {
      }
      i, j := Pigeonhole(s[1..], u - {x});
      i, j := i + 1, j + 1;
    }
  }

  lemma StuckIsCyclic(g: Graph, names: set<string>, done: set<string>)
    requires Ready(g, names, done) == {} && names - done != {}
    ensures Cyclic(g, names)
  {
    var path := StuckWalk(g, names, done, |names - done|);
    var i, j := Pigeonhole(path, names - done);
    var cycle := path[i..j + 1];
    assert IsCycle(g, names, cycle);
  }

  lemma {:induction false} OrderCompletes(g: Graph, names: set<string>, done: set<string>)
    requires done <= names && !Cyclic(g, names)
    ensures Elements(Order(g, names, done)) == names - done
    decreases names - done
  {
    var ready := Ready(g, names, done);
    if ready == {} {
      if names - done != {} {
        StuckIsCyclic(g, names, done);
      }
    } else {
      var next := Least(ready);
      OrderCompletes(g, names, done + {next});
      assert Elements([next] + Order(g, names, done + {next})) == {next} + Elements(Order(g, names, done + {next}));
    }
  }

  /** Along a walk inside a complete topological list, positions only go down. */
  lemma {:induction false} WalkDescends(g: Graph, names: set<string>, s: seq<string>, path: seq<string>, k: nat,
      top: nat)
    requires Topological(g, names, {}, s) && Elements(s) == names && Distinct(s)
    requires IsWalk(g, names, path) && k < |path| && top < |s| && s[top] == path[0]
    ensures exists i :: 0 <= i <= top && s[i] == path[k] && (k > 0 ==> i < top)
  {
    if k > 0 {
      WalkDescends(g, names, s, path, k - 1, top);
      var i :| 0 <= i <= top && s[i] == path[k - 1];
      assert path[k] in Parents(g, s[i]) && path[k] in names;
      assert path[k] in s[..i];
    }
  }

  lemma CompleteIsAcyclic(g: Graph, names: set<string>, s: seq<string>)
    requires Topological(g, names, {}, s) && Elements(s) == names && Distinct(s)
    ensures !Cyclic(g, names)
  {
    if path :| IsCycle(g, names, path) {
      assert path[0] in Elements(s);
      var top :| 0 <= top < |s| && s[top] == path[0];
      WalkDescends(g, names, s, path, |path| - 1, top);
    }
  }

  /** The order holds every name exactly when the induced subgraph has no cycle. */
  lemma OrderExact(g: Graph, names: set<string>)
    ensures |Order(g, names, {})| == |names| <==> !Cyclic(g, names)
    ensures !Cyclic(g, names) ==> Elements(Order(g, names, {})) == names
  {
    var s := Order(g, names, {});
    OrderSound(g, names, {});
    DistinctSize(s);
    if !Cyclic(g, names) {
      OrderCompletes(g, names, {});
      assert names - {} == names;
    } else if |s| == |names| {
      SubsetSize(Elements(s), names);
      CompleteIsAcyclic(g, names, s);
    }
  }

  lemma OrderShort(g: Graph, names: set<string>)
    ensures |Order(g, names, {})| <= |names|
  {
    OrderSound(g, names, {});
    var s := Order(g, names, {});
    DistinctSize(s);
    assert names == Elements(s) + (names - Elements(s));
  }

  lemma SubsetSize(a: set<string>, b: set<string>)
    requires a <= b && |a| >= |b|
    ensures a == b
  {
    assert |b - a| == |b| - |a|;
    assert b - a == {};
  }

  // -------------------------------------------------------------- in-degree counts

  /** How many entries of ps lie in s, repeats included. */
  function CountIn(ps: seq<string>, s: set<string>): nat {
    if ps == [] then 0 else CountIn(ps[..|ps| - 1], s) + if ps[|ps| - 1] in s then 1 else 0
  }

  lemma {:induction false} CountZero(ps: seq<string>, s: set<string>)
    ensures CountIn(ps, s) == 0 <==> forall p :: p in ps ==> p !in s
  {
    if ps != [] {
      var last := |ps| - 1;
      CountZero(ps[..last], s);
      assert ps == ps[..last] + [ps[last]];
    }
  }

  /** Taking one element out of s loses exactly its occurrences. */
  lemma {:induction false} CountRemove(ps: seq<string>, s: set<string>, x: string)
    requires x in s
    ensures CountIn(ps, s) == CountIn(ps, s - {x}) + CountIn(ps, {x})
  {
    if ps != [] {
      CountRemove(ps[..|ps| - 1], s, x);
    }
  }

  function Get(m: map<string, int>, k: string): int {
    if k in m then m[k] else 0
  }

  method CountInDegrees(g: Graph, names: seq<string>) returns (indeg: map<string, int>)
    requires Distinct(names)
    ensures forall n :: n in names ==> Get(indeg, n) == CountIn(Parents(g, n), Elements(names))
  {
    var subset := Elements(names);
    indeg := map[];
    for i := 0 to |names|
      invariant forall k :: 0 <= k < i ==> Get(indeg, names[k]) == CountIn(Parents(g, names[k]), subset)
      invariant forall k :: i <= k < |names| ==> names[k] !in indeg
    {
      var n := names[i];
      var ps := Parents(g, n);
      for j := 0 to |ps|
        invariant Get(indeg, n) == CountIn(ps[..j], subset)
        invariant forall k :: 0 <= k < i ==> Get(indeg, names[k]) == CountIn(Parents(g, names[k]), subset)
        invariant forall k :: i < k < |names| ==> names[k] !in indeg
      {
        assert ps[..j + 1][..j] == ps[..j];
        if ps[j] in subset {
          indeg := indeg[n := Get(indeg, n) + 1];
        }
      }
      assert ps[..|ps|] == ps;
    }
  }

  /** Removes `next` from the in-degrees of one candidate; reports whether that made it ready. */
  method Release(g: Graph, indeg: map<string, int>, candidate: string, next: string, ghost left: set<string>)
    returns (indeg': map<string, int>, becameReady: bool)
    requires next in left && Get(indeg, candidate) == CountIn(Parents(g, candidate), left)
    ensures Get(indeg', candidate) == CountIn(Parents(g, candidate), left - {next})
    ensures forall n :: n != candidate ==> Get(indeg', n) == Get(indeg, n)
    ensures becameReady <==> next in Parents(g, candidate) && Get(indeg', candidate) == 0
  {
    var ps := Parents(g, candidate);
    indeg', becameReady := indeg, false;
    CountRemove(ps, left, next);
    for j := 0 to |ps|
      invariant Get(indeg', candidate) == CountIn(ps, left) - CountIn(ps[..j], {next})
      invariant forall n :: n != candidate ==> Get(indeg', n) == Get(indeg, n)
      invariant becameReady <==> next in ps[..j] && Get(indeg', candidate) == 0
    {
      assert ps[..j + 1][..j] == ps[..j];
      CountPrefix(ps, {next}, j + 1);
      if ps[j] == next {
        indeg' := indeg'[candidate := Get(indeg', candidate) - 1];
        if indeg'[candidate] == 0 {
          becameReady := true;
        }
      }
      CountZero(ps[..j], {next});
    }
    assert ps[..|ps|] == ps;
  }

  lemma {:induction false} CountPrefix(ps: seq<string>, s: set<string>, i: nat)
    requires i <= |ps|
    ensures CountIn(ps[..i], s) <= CountIn(ps, s)
    decreases |ps| - i
  {
    if i < |ps| {
      CountPrefix(ps, s, i + 1);
      assert ps[..i + 1][..i] == ps[..i];
    } else {
      assert ps[..i] == ps;
    }
  }

  // --------------------------------------------------------------------- the sort

  lemma ReadyIsZero(g: Graph, names: set<string>, done: set<string>, n: string)
    requires n in names && n !in done
    ensures n in Ready(g, names, done) <==> CountIn(Parents(g, n), names - done) == 0
  {
    CountZero(Parents(g, n), names - done);
  }

  /** What is done has its parents done. */
  ghost predicate Settled(g: Graph, names: set<string>, done: set<string>) {
    done <= names && forall c, p :: c in done && p in Parents(g, c) && p in names ==> p in done
  }

  /** Finishing `next` readies exactly the children whose last unfinished parent it was. */
  lemma ReadyAfter(g: Graph, names: set<string>, done: set<string>, next: string, c: string)
    requires Settled(g, names, done) && next in Ready(g, names, done) && c in names
    ensures c in Ready(g, names, done + {next}) <==>
              (c in Ready(g, names, done) && c != next) ||
              (next in Parents(g, c) && CountIn(Parents(g, c), names - done - {next}) == 0)
  {
    CountZero(Parents(g, c), names - done - {next});
  }

  lemma ReadyStep(g: Graph, names: set<string>, done: set<string>, ready: seq<string>)
    requires Settled(g, names, done) && Sorted(ready) && ready != [] && Elements(ready) == Ready(g, names, done)
    ensures var next := ready[0];
            && next in Ready(g, names, done) && next in names && next !in done
            && Settled(g, names, done + {next})
            && Order(g, names, done) == [next] + Order(g, names, done + {next})
  {
    assert ready[0] in Elements(ready);
    LeastUnique(Elements(ready), ready[0]);
  }

  lemma ReadyStop(g: Graph, names: set<string>, done: set<string>)
    requires Ready(g, names, done) == {}
    ensures Order(g, names, done) == []
  {
  }

  lemma ReadyAtStart(g: Graph, names: seq<string>, indeg: map<string, int>, ready: seq<string>)
    requires forall n :: n in names ==> Get(indeg, n) == CountIn(Parents(g, n), Elements(names))
    requires forall x :: x in Elements(ready) <==> x in names && Get(indeg, x) == 0
    ensures Elements(ready) == Ready(g, Elements(names), {})
  {
    assert Elements(names) - {} == Elements(names);
    forall x | x in names ensures x in Elements(ready) <==> x in Ready(g, Elements(names), {}) {
      ReadyIsZero(g, Elements(names), {}, x);
    }
  }

  /** The names nothing in the subset holds back, sorted. */
  method InitialReady(g: Graph, names: seq<string>, indeg: map<string, int>) returns (ready: seq<string>)
    requires Distinct(names)
    requires forall n :: n in names ==> Get(indeg, n) == CountIn(Parents(g, n), Elements(names))
    ensures Sorted(ready) && Elements(ready) == Ready(g, Elements(names), {})
  {
    ready := [];
    for i := 0 to |names|
      invariant Distinct(ready)
      invariant forall x :: x in ready <==> x in names[..i] && Get(indeg, x) == 0
    {
      if Get(indeg, names[i]) == 0 {
        ready := ready + [names[i]];
      }
    }
    assert names[..|names|] == names;
    ready := SortStrings(ready);
    ReadyAtStart(g, names, indeg, ready);
  }

  /** Kahn's algorithm as the code runs it; the result depends on the set of names only, not on their order. */
  method Kahn(g: Graph, names: seq<string>) returns (out: seq<string>)
    requires Distinct(names)
    ensures out == Order(g, Elements(names), {})
  {
    ghost var subset := Elements(names);
    var indeg := CountInDegrees(g, names);
    var ready := InitialReady(g, names, indeg);
    out := [];
    ghost var done, full := {}, Order(g, subset, {});
    assert subset - {} == subset && Settled(g, subset, {});
    hide *;
    while |ready| > 0
      invariant Sorted(ready) && Elements(ready) == Ready(g, subset, done)
      invariant Settled(g, subset, done)
      invariant forall n :: n in names ==> Get(indeg, n) == CountIn(Parents(g, n), subset - done)
      invariant |out| <= |full| && full[..|out|] == out && full[|out|..] == Order(g, subset, done)
      decreases subset - done
    {
      var next := ready[0];
      ReadyStep(g, subset, done, ready);
      Follows(full, |out|, next, Order(g, subset, done + {next}));
      out := out + [next];
      indeg, ready := Advance(g, names, indeg, ready, next, done);
      done := done + {next};
    }
    EmptyElements(ready);
    ReadyStop(g, subset, done);
    assert out == full;
  }

  /** The migrator's form: it fails iff the names contain a cycle. */
  method TopoSortSubset(g: Graph, names: seq<string>) returns (sorted: Option<seq<string>>)
    requires Distinct(names)
    ensures sorted.None? <==> Cyclic(g, Elements(names))
    ensures sorted.Some? ==> sorted.value == Order(g, Elements(names), {})
  {
    OrderExact(g, Elements(names));
    OrderShort(g, Elements(names));
    DistinctSize(names);
    var out := Kahn(g, names);
    if |out| < |names| {
      return None;
    }
    return Some(out);
  }

  lemma Follows(full: seq<string>, i: nat, next: string, rest: seq<string>)
    requires i <= |full| && full[i..] == [next] + rest
    ensures i < |full| && full[..i + 1] == full[..i] + [next] && full[i + 1..] == rest
  {
    assert full[i] == next;
    assert full[i..][1..] == rest;
  }

  lemma EmptyElements(s: seq<string>)
    requires s == []
    ensures Elements(s) == {}
  {
  }

  lemma SortedTail(s: seq<string>)
    requires Sorted(s) && s != []
    ensures Sorted(s[1..])
  {
  }

  /** `append` then `sort.Strings`. */
  function SortIn(ready: seq<string>, c: string): (r: seq<string>)
    requires Sorted(ready) && c !in ready
    ensures Sorted(r) && forall x :: x in r <==> x in ready || x == c
  {
    SortedIsDistinct(ready);
    var r := SortStrings(ready + [c]);
    ElementsSnoc(ready, c);
    InElements(ready);
    InElements(r);
    r
  }

  /** One turn of the ready queue: every candidate loses `next`, and the new ready ones are sorted in. */
  method Advance(g: Graph, names: seq<string>, indeg0: map<string, int>, ready0: seq<string>, next: string,
                 ghost done: set<string>)
    returns (indeg: map<string, int>, ready: seq<string>)
    requires Distinct(names) && Sorted(ready0) && ready0 != [] && ready0[0] == next
    requires Elements(ready0) == Ready(g, Elements(names), done) && Settled(g, Elements(names), done)
    requires forall n :: n in names ==> Get(indeg0, n) == CountIn(Parents(g, n), Elements(names) - done)
    ensures Sorted(ready) && Elements(ready) == Ready(g, Elements(names), done + {next})
    ensures forall n :: n in names ==> Get(indeg, n) == CountIn(Parents(g, n), Elements(names) - (done + {next}))
  {
    hide Order, Ready, Least, CountIn, Parents, Elements, Sorted, Settled, Get, Less;
    ghost var subset := Elements(names);
    ghost var left := subset - done;
    ReadyStep(g, subset, done, ready0);
    SortedIsDistinct(ready0);
    InElements(names);
    indeg, ready := indeg0, ready0[1..];
    assert names[..0] == [];
    assert left - {next} == subset - (done + {next});
    SortedTail(ready0);
    for i := 0 to |names|
      invariant Sorted(ready)
      invariant forall k :: 0 <= k < i ==> Get(indeg, names[k]) == CountIn(Parents(g, names[k]), left - {next})
      invariant forall k :: i <= k < |names| ==> Get(indeg, names[k]) == CountIn(Parents(g, names[k]), left)
      invariant forall x :: x in ready <==>
                  x in ready0[1..] ||
                  (x in names[..i] && next in Parents(g, x) && CountIn(Parents(g, x), left - {next}) == 0)
    {
      var c := names[i];
      var became;
      indeg, became := Release(g, indeg, c, next, left);
      assert names[..i + 1] == names[..i] + [c];
      if became {
        NotReadyYet(g, subset, done, next, c, ready0);
        assert c !in ready;
        ready := SortIn(ready, c);
      }
    }
    assert names[..|names|] == names;
    AdvanceReady(g, names, done, next, ready0, ready);
  }

  lemma AdvanceReady(g: Graph, names: seq<string>, done: set<string>, next: string, ready0: seq<string>,
      ready: seq<string>)
    requires Distinct(ready0) && ready0 != [] && ready0[0] == next && Settled(g, Elements(names), done)
    requires Elements(ready0) == Ready(g, Elements(names), done)
    requires forall x :: x in ready <==>
               x in ready0[1..] ||
               (x in names && next in Parents(g, x) && CountIn(Parents(g, x), Elements(names) - done - {next}) == 0)
    ensures Elements(ready) == Ready(g, Elements(names), done + {next})
  {
    var subset := Elements(names);
    InElements(ready0);
    assert next in ready0;
    forall x ensures x in ready <==> x in Ready(g, subset, done + {next}) {
      assert x in ready0[1..] <==> x in ready0 && x != next;
      if x in subset {
        ReadyAfter(g, subset, done, next, x);
      }
    }
  }

  lemma NotReadyYet(g: Graph, names: set<string>, done: set<string>, next: string, c: string, ready0: seq<string>)
    requires next in Ready(g, names, done) && next in Parents(g, c)
    requires Elements(ready0) == Ready(g, names, done)
    ensures c !in ready0
  {
    InElements(ready0);
  }
}
