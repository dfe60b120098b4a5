/** Refreshable views: the second client of the same sort, which drops what it cannot order. */
module MatViews {
  import opened StringOrder
  import opened MigrationGraph
  import opened MigrationReach

  /** The views that depend on `upstream`, directly or through other views. */
  ghost function Dependents(views: Graph, upstream: string): set<string> {
    set v | v in views && StrictlyReaches(views, v, upstream)
  }

  /** Collects the transitive dependents with a stack, each once. */
  method Collect(views: Graph, upstream: string) returns (collected: seq<string>)
    ensures Distinct(collected) && Elements(collected) == Dependents(views, upstream)
  {
    hide StrictlyReaches, Elements, Distinct, Parents;
    var dependents := ChildrenOf(views);
    var visited: set<string> := {};
    var stack := Parents(dependents, upstream);
    collected := [];
    forall x | x in stack ensures StrictlyReaches(views, x, upstream) {
      ChildReaches(views, x, upstream, upstream);
    }
    ElementsEmpty();
    while |stack| > 0
      invariant Distinct(collected) && Elements(collected) == visited
      invariant visited <= views.Keys
      invariant forall x :: x in visited || x in stack ==> x in views && StrictlyReaches(views, x, upstream)
      invariant forall c :: c in views && upstream in views[c] ==> c in visited || c in stack
      invariant ClosedExcept(dependents, visited, stack)
      decreases views.Keys - visited, |stack|
    {
      var n := stack[|stack| - 1];
      ghost var was := stack;
      stack := stack[..|stack| - 1];
      assert forall x :: x in was <==> x == n || x in stack;
      if n in visited {
        continue;
      }
      InElements(collected);
      ElementsSnoc(collected, n);
      DistinctSnoc(collected, n);
      visited := visited + {n};
      collected := collected + [n];
      forall c | c in Parents(dependents, n) ensures StrictlyReaches(views, c, upstream) {
        ChildReaches(views, c, n, upstream);
      }
      stack := stack + Parents(dependents, n);
    }
    AllVisited(views, dependents, visited, upstream);
  }

  lemma ElementsEmpty()
    ensures Elements([]) == {} && Distinct([])
  {
  }

  lemma DistinctSnoc(s: seq<string>, x: string)
    requires Distinct(s) && x !in s
    ensures Distinct(s + [x])
  {
  }

  /**
    The refresh order: dependents only, each after the dependents it reads. Every
    dependent is refreshed iff none of them lie on a cycle among themselves.
   */
  method DownstreamOrder(views: Graph, upstream: string) returns (order: seq<string>)
    ensures Distinct(order) && Elements(order) <= Dependents(views, upstream)
    ensures Topological(views, Dependents(views, upstream), {}, order)
    ensures Elements(order) == Dependents(views, upstream) <==> !Cyclic(views, Dependents(views, upstream))
  {
    var collected := Collect(views, upstream);
    ghost var all := Dependents(views, upstream);
    order := Kahn(views, collected);
    OrderSound(views, all, {});
    OrderExact(views, all);
    DistinctSize(order);
    assert all - {} == all;
  }
}
