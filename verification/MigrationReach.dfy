/** Ancestors and descendants in the migration graph, computed by queues and defined by paths. */
module MigrationReach {
  import opened Wrappers
  import opened StringOrder
  import opened MigrationGraph

  datatype GraphError = UnknownMigration | MissingParent

  ghost predicate IsPath(g: Graph, path: seq<string>, from: string, to: string) {
    && path != [] && path[0] == from && path[|path| - 1] == to
    && forall i :: 0 <= i < |path| - 1 ==> path[i + 1] in Parents(g, path[i])
  }

  /** `a` is reached from `d` along parent edges; every node reaches itself. */
  ghost predicate Reaches(g: Graph, d: string, a: string) {
    exists path :: IsPath(g, path, d, a)
  }

  /** `a` is reached from `d` in at least one step. */
  ghost predicate StrictlyReaches(g: Graph, d: string, a: string) {
    exists p :: p in Parents(g, d) && Reaches(g, p, a)
  }

  lemma ReachesSelf(g: Graph, n: string)
    ensures Reaches(g, n, n)
  {
    assert IsPath(g, [n], n, n);
  }

  lemma ReachesStep(g: Graph, d: string, a: string, p: string)
    requires Reaches(g, d, a) && p in Parents(g, a)
    ensures Reaches(g, d, p)
  {
    var path :| IsPath(g, path, d, a);
    assert IsPath(g, path + [p], d, p);
  }

  lemma ReachesBefore(g: Graph, d: string, p: string, a: string)
    requires p in Parents(g, d) && Reaches(g, p, a)
    ensures Reaches(g, d, a)
  {
    var path :| IsPath(g, path, p, a);
    assert IsPath(g, [d] + path, d, a);
  }

  /** A set closed under parents holds everything its members reach. */
  lemma {:induction false} ClosedReaches(g: Graph, s: set<string>, path: seq<string>, from: string, to: string)
    requires forall x, p :: x in s && p in Parents(g, x) ==> p in s
    requires IsPath(g, path, from, to) && from in s
    ensures to in s
  {
    if |path| > 1 {
      assert IsPath(g, path[1..], path[1], to);
      ClosedReaches(g, s, path[1..], path[1], to);
    }
  }

  ghost predicate ClosedExcept(g: Graph, visited: set<string>, queue: seq<string>) {
    forall x, p :: x in visited && p in Parents(g, x) ==> p in visited || p in queue
  }

  /** The target and everything it reaches; fails iff one of them is not registered. */
  method AncestorsOf(g: Graph, target: string) returns (r: Result<set<string>, GraphError>)
    ensures target !in g <==> r == Err(UnknownMigration)
    ensures r == Err(MissingParent) ==> exists x :: Reaches(g, target, x) && x !in g
    ensures r.Ok? ==> r.value <= g.Keys && forall x :: x in r.value <==> Reaches(g, target, x)
  {
    if target !in g {
      return Err(UnknownMigration);
    }
    var visited: set<string> := {};
    var queue := [target];
    ReachesSelf(g, target);
    while |queue| > 0
      invariant visited <= g.Keys
      invariant target in visited || target in queue
      invariant forall x :: x in visited || x in queue ==> Reaches(g, target, x)
      invariant ClosedExcept(g, visited, queue)
      decreases g.Keys - visited, |queue|
    {
      var cur := queue[0];
      ghost var was := queue;
      queue := queue[1..];
      assert forall x :: x in was <==> x == cur || x in queue;
      if cur in visited {
        continue;
      }
      visited := visited + {cur};
      if cur !in g {
        return Err(MissingParent);
      }
      forall p | p in g[cur] ensures Reaches(g, target, p) {
        ReachesStep(g, target, cur, p);
      }
      queue := queue + g[cur];
    }
    forall x | Reaches(g, target, x) ensures x in visited {
      var path :| IsPath(g, path, target, x);
      ClosedReaches(g, visited, path, target, x);
    }
    return Ok(visited);
  }

  /** What the map says, and that id is a child of these. */
  ghost predicate AlsoChildOf(children: map<string, seq<string>>, before: map<string, seq<string>>, id: string,
      ps: seq<string>) {
    forall p, c :: c in Parents(children, p) <==> c in Parents(before, p) || (c == id && p in ps)
  }

  /** The children of every node, but for those in left. */
  ghost predicate ChildrenBut(children: map<string, seq<string>>, g: Graph, left: set<string>) {
    forall p, c :: c in Parents(children, p) <==> c in g && c !in left && p in g[c]
  }

  lemma NoneYet(children: map<string, seq<string>>, g: Graph, left: set<string>)
    requires children.Keys == {} && left == g.Keys
    ensures ChildrenBut(children, g, left)
  {
    forall p: string, c: string ensures !(c in Parents(children, p)) && !(c in g && c !in left) {
      assert p !in children.Keys;
      assert c in g <==> c in g.Keys;
    }
  }

  lemma OneMore(children: map<string, seq<string>>, before: map<string, seq<string>>, g: Graph, left: set<string>,
      id: string)
    requires id in g && id in left && ChildrenBut(before, g, left) && AlsoChildOf(children, before, id, g[id])
    ensures ChildrenBut(children, g, left - {id})
  {
    forall p, c ensures c in Parents(children, p) <==> c in g && c !in left - {id} && p in g[c] {
      assert c in Parents(children, p) <==> c in Parents(before, p) || (c == id && p in g[id]);
    }
  }

  lemma NoChildYet(before: map<string, seq<string>>, id: string, ps: seq<string>)
    ensures AlsoChildOf(before, before, id, ps[..0])
  {
  }

  lemma ChildAdded(children: map<string, seq<string>>, before: map<string, seq<string>>, id: string, ps: seq<string>,
      j: nat)
    requires j < |ps| && AlsoChildOf(children, before, id, ps[..j])
    ensures AlsoChildOf(children[ps[j] := Parents(children, ps[j]) + [id]], before, id, ps[..j + 1])
  {
    assert ps[..j + 1] == ps[..j] + [ps[j]];
    var more := children[ps[j] := Parents(children, ps[j]) + [id]];
    forall p, c ensures c in Parents(more, p) <==> c in Parents(children, p) || (c == id && p == ps[j]) {
    }
  }

  /** Each node's registered children. */
  method ChildrenOf(g: Graph) returns (children: map<string, seq<string>>)
    ensures forall p, c :: c in Parents(children, p) <==> c in g && p in g[c]
  {
    children := map[];
    var left := g.Keys;
    NoneYet(children, g, left);
    while left != {}
      invariant left <= g.Keys
      invariant ChildrenBut(children, g, left)
    {
      var id :| id in left;
      var ps := g[id];
      ghost var before := children;
      NoChildYet(before, id, ps);
      for j := 0 to |ps|
        invariant AlsoChildOf(children, before, id, ps[..j])
      {
        ChildAdded(children, before, id, ps, j);
        children := children[ps[j] := Parents(children, ps[j]) + [id]];
      }
      assert ps[..|ps|] == ps;
      OneMore(children, before, g, left, id);
      left := left - {id};
    }
  }

  /** The strict descendants of a node: every registered node that reaches it in at least one step. */
  method DescendantsOf(g: Graph, target: string) returns (visited: set<string>)
    ensures forall x :: x in visited <==> x in g && StrictlyReaches(g, x, target)
  {
    var children := ChildrenOf(g);
    visited := {};
    var queue := Parents(children, target);
    forall x | x in queue ensures StrictlyReaches(g, x, target) {
      ChildReaches(g, x, target, target);
    }
    hide StrictlyReaches;
    while |queue| > 0
      invariant visited <= g.Keys
      invariant forall x :: x in visited || x in queue ==> x in g && StrictlyReaches(g, x, target)
      invariant forall c :: c in g && target in g[c] ==> c in visited || c in queue
      invariant ClosedExcept(children, visited, queue)
      decreases g.Keys - visited, |queue|
    {
      var cur := queue[0];
      ghost var was := queue;
      queue := queue[1..];
      assert forall x :: x in was <==> x == cur || x in queue;
      if cur in visited {
        continue;
      }
      visited := visited + {cur};
      forall c | c in Parents(children, cur) ensures StrictlyReaches(g, c, target) {
        ChildReaches(g, c, cur, target);
      }
      queue := queue + Parents(children, cur);
    }
    AllVisited(g, children, visited, target);
  }

  /** What the queues leave behind holds every strict descendant of the target. */
  lemma AllVisited(g: Graph, children: map<string, seq<string>>, visited: set<string>, target: string)
    requires forall p, c :: c in Parents(children, p) <==> c in g && p in g[c]
    requires forall c :: c in g && target in g[c] ==> c in visited
    requires forall x, c :: x in visited && c in Parents(children, x) ==> c in visited
    ensures forall x :: x in g && StrictlyReaches(g, x, target) ==> x in visited
  {
    forall x | x in g && StrictlyReaches(g, x, target) ensures x in visited {
      var p :| p in Parents(g, x) && Reaches(g, p, target);
      var path :| IsPath(g, path, p, target);
      assert IsPath(g, [x] + path, x, target);
      AllReached(g, children, visited, target, [x] + path);
    }
  }

  /** A child of the target, or of a strict descendant, is a strict descendant. */
  lemma ChildReaches(g: Graph, c: string, p: string, target: string)
    requires c in g && p in g[c] && (p == target || StrictlyReaches(g, p, target))
    ensures StrictlyReaches(g, c, target)
  {
    if p == target {
      ReachesSelf(g, target);
    } else {
      StrictIsReach(g, p, target);
    }
  }

  lemma StrictIsReach(g: Graph, d: string, a: string)
    requires StrictlyReaches(g, d, a)
    ensures Reaches(g, d, a)
  {
    var p :| p in Parents(g, d) && Reaches(g, p, a);
    ReachesBefore(g, d, p, a);
  }

  lemma {:induction false} AllReached(g: Graph, children: map<string, seq<string>>, visited: set<string>,
                                      target: string, path: seq<string>)
    requires forall p, c :: c in Parents(children, p) <==> c in g && p in g[c]
    requires forall c :: c in g && target in g[c] ==> c in visited
    requires forall x, c :: x in visited && c in Parents(children, x) ==> c in visited
    requires |path| >= 2 && IsPath(g, path, path[0], target)
    ensures path[0] in visited
  {
    assert path[1] in Parents(g, path[0]);
    assert path[0] in Parents(children, path[1]);
    if |path| > 2 {
      assert IsPath(g, path[1..], path[1], target);
      AllReached(g, children, visited, target, path[1..]);
    }
  }
}
