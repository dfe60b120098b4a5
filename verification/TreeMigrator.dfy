/**
  The migrator as a state machine over the set of applied migrations. `applied` is
  the tracking table; `trace` records that table after every single change to it.
 */
module TreeMigrator {
  import opened Wrappers
  import opened StringOrder
  import opened MigrationGraph
  import opened MigrationReach

  datatype Migration = Migration(parents: seq<string>, hasUp: bool, hasDown: bool, upSQL: string)

  /** What the server does with one migration's statements and bookkeeping. */
  datatype Outcome = Works | Fails | FailsAfterRecord

  datatype Error =
    | CycleDetected | Unknown | Missing | Irreversible | NothingApplied | MigrationTampered | NoUp | StepFailed

  function GraphOf(nodes: map<string, Migration>): Graph {
    map n | n in nodes :: nodes[n].parents
  }

  /** Every applied migration has its parents applied. */
  ghost predicate Closed(g: Graph, s: set<string>) {
    forall n, p :: n in s && p in Parents(g, n) ==> p in s
  }

  /** What `Validate` accepts: no missing parent and no cycle. */
  ghost predicate Validated(g: Graph) {
    (forall n, p :: n in g && p in g[n] ==> p in g) && !Cyclic(g, g.Keys)
  }

  /** Applied migrations that no applied migration builds on. */
  ghost function Heads(g: Graph, applied: set<string>): set<string> {
    set n | n in applied && forall c :: c in g && c in applied ==> n !in g[c]
  }

  ghost function Ancestors(g: Graph, id: string): set<string> {
    set n | n in g && Reaches(g, id, n)
  }

  // ------------------------------------------------------- how far a command gets

  /** The migration can be applied: it has an Up, and its statements and bookkeeping work. */
  ghost predicate Applies(nodes: map<string, Migration>, id: string, fault: string -> Outcome) {
    id in nodes && nodes[id].hasUp && fault(id) == Works
  }

  ghost predicate Undoes(nodes: map<string, Migration>, id: string, fault: string -> Outcome) {
    id in nodes && nodes[id].hasDown && fault(id) == Works
  }

  ghost predicate AllApply(nodes: map<string, Migration>, todo: set<string>, fault: string -> Outcome) {
    forall n :: n in todo ==> Applies(nodes, n, fault)
  }

  ghost predicate AllUndo(nodes: map<string, Migration>, going: set<string>, fault: string -> Outcome) {
    forall n :: n in going ==> Undoes(nodes, n, fault)
  }

  /** Each of them once, with its parents among them before it. */
  ghost predicate ParentsFirst(g: Graph, todo: set<string>, sorted: seq<string>) {
    && Distinct(sorted) && Elements(sorted) == todo
    && forall i, p :: 0 <= i < |sorted| && p in Parents(g, sorted[i]) && p in todo ==> p in sorted[..i]
  }

  /** The first k are applied; the next, if the command failed, is what it failed on and for what it lacks. */
  ghost predicate StoppedAt(nodes: map<string, Migration>, sorted: seq<string>, k: nat, was: set<string>,
      now: set<string>, fault: string -> Outcome, err: Option<Error>) {
    && k <= |sorted| && (forall i :: 0 <= i < k ==> Applies(nodes, sorted[i], fault))
    && (match err
        case None => k == |sorted| && now == was + Elements(sorted)
        case Some(NoUp) =>
          k < |sorted| && sorted[k] in nodes && !nodes[sorted[k]].hasUp && now == was + Elements(sorted[..k])
        case Some(StepFailed) =>
          && k < |sorted| && sorted[k] in nodes && nodes[sorted[k]].hasUp && fault(sorted[k]) != Works
          && now == was + Elements(sorted[..k]) + if fault(sorted[k]) == Fails then {} else {sorted[k]}
        case _ => false)
  }

  ghost predicate GotThrough(nodes: map<string, Migration>, todo: set<string>, was: set<string>, now: set<string>,
      fault: string -> Outcome, err: Option<Error>) {
    exists sorted, k: nat ::
      ParentsFirst(GraphOf(nodes), todo, sorted) && StoppedAt(nodes, sorted, k, was, now, fault, err)
  }

  /** Those from k on are rolled back, in reverse; the one before, if the command failed, is what it failed on. */
  ghost predicate HaltedAt(nodes: map<string, Migration>, sorted: seq<string>, k: nat, was: set<string>,
      now: set<string>, fault: string -> Outcome, err: Option<Error>) {
    && k <= |sorted| && (forall i :: k <= i < |sorted| ==> Undoes(nodes, sorted[i], fault))
    && now == was - Elements(sorted[k..])
    && (match err
        case None => k == 0
        case Some(Irreversible) => k > 0 && (sorted[k - 1] !in nodes || !nodes[sorted[k - 1]].hasDown)
        case Some(StepFailed) =>
          k > 0 && sorted[k - 1] in nodes && nodes[sorted[k - 1]].hasDown && fault(sorted[k - 1]) != Works
        case _ => false)
  }

  ghost predicate GotBack(nodes: map<string, Migration>, going: set<string>, was: set<string>, now: set<string>,
      fault: string -> Outcome, err: Option<Error>) {
    exists sorted, k: nat ::
      ParentsFirst(GraphOf(nodes), going, sorted) && HaltedAt(nodes, sorted, k, was, now, fault, err)
  }

  /** A command gets through exactly when every migration it has to apply can be applied. */
  lemma ThroughIff(nodes: map<string, Migration>, todo: set<string>, was: set<string>, now: set<string>,
      fault: string -> Outcome, err: Option<Error>)
    requires GotThrough(nodes, todo, was, now, fault, err)
    ensures err.None? <==> AllApply(nodes, todo, fault)
    ensures err in {None, Some(NoUp), Some(StepFailed)}
    ensures err.None? ==> now == was + todo
    ensures was <= now <= was + todo
  {
    var sorted, k: nat :| ParentsFirst(GraphOf(nodes), todo, sorted)
                          && StoppedAt(nodes, sorted, k, was, now, fault, err);
    PrefixElements(sorted, k);
    forall i | 0 <= i < |sorted| ensures sorted[i] in todo {
      assert sorted[i] in Elements(sorted);
    }
  }

  lemma BackIff(nodes: map<string, Migration>, going: set<string>, was: set<string>, now: set<string>,
      fault: string -> Outcome, err: Option<Error>)
    requires GotBack(nodes, going, was, now, fault, err)
    ensures err.None? <==> AllUndo(nodes, going, fault)
    ensures err in {None, Some(Irreversible), Some(StepFailed)}
    ensures err.None? ==> now == was - going
    ensures was - going <= now <= was
  {
    var sorted, k: nat :| ParentsFirst(GraphOf(nodes), going, sorted)
                          && HaltedAt(nodes, sorted, k, was, now, fault, err);
    PrefixElements(sorted, k);
    forall i | 0 <= i < |sorted| ensures sorted[i] in going {
      assert sorted[i] in Elements(sorted);
    }
  }

  // ---------------------------------------------------- what one step preserves

  /** Every parent of a pending migration is applied or pending. */
  ghost predicate ParentsCovered(g: Graph, applied: set<string>, pending: set<string>) {
    forall n, p :: n in pending && p in Parents(g, n) ==> p in applied || p in pending
  }

  /** Whatever is applied on top of a migration that goes, goes too. */
  ghost predicate ChildrenGo(g: Graph, applied: set<string>, going: set<string>) {
    forall c, p :: c in applied && p in Parents(g, c) && p in going ==> c in going
  }

  /** Applying any prefix of the order keeps the set closed. */
  lemma ApplyKeepsClosed(g: Graph, applied: set<string>, pending: set<string>, k: nat)
    requires Closed(g, applied) && !Cyclic(g, pending) && k <= |Order(g, pending, {})|
    requires ParentsCovered(g, applied, pending)
    ensures Closed(g, applied + Elements(Order(g, pending, {})[..k]))
  {
    var s := Order(g, pending, {});
    OrderSound(g, pending, {});
    OrderExact(g, pending);
    hide Order, Cyclic;
    forall n, p | n in applied + Elements(s[..k]) && p in Parents(g, n)
      ensures p in applied + Elements(s[..k])
    {
      if n !in applied {
        var i :| 0 <= i < k && s[..k][i] == n;
        assert n in Elements(s);
        if p in pending {
          assert p in s[..i];
          assert forall x :: x in s[..i] ==> x in s[..k];
        }
      }
    }
  }

  /** Rolling back from the end of the order keeps the set closed. */
  lemma RollbackKeepsClosed(g: Graph, applied: set<string>, going: set<string>, k: nat)
    requires Closed(g, applied) && going <= applied && !Cyclic(g, going) && k <= |Order(g, going, {})|
    requires ChildrenGo(g, applied, going)
    ensures Closed(g, applied - Elements(Order(g, going, {})[k..]))
  {
    var s := Order(g, going, {});
    OrderSound(g, going, {});
    OrderExact(g, going);
    hide Order, Cyclic;
    assert forall x :: x in Elements(s[k..]) ==> x in Elements(s);
    forall i | k <= i < |s| ensures s[i] in Elements(s[k..]) {
      assert s[k..][i - k] == s[i];
    }
    forall n, p | n in applied - Elements(s[k..]) && p in Parents(g, n)
      ensures p in applied - Elements(s[k..])
    {
      if n in going && p in going {
        assert n in Elements(s);
        var i :| 0 <= i < |s| && s[i] == n;
        assert p in s[..i];
        var h :| 0 <= h < i && s[h] == p;
      }
    }
  }

  /** Nothing outside a parent-closed set is a parent of something inside it. */
  lemma AncestorsClosed(g: Graph, id: string)
    requires forall n, p :: n in g && p in g[n] ==> p in g
    ensures Closed(g, Ancestors(g, id))
  {
    forall n, p | n in Ancestors(g, id) && p in Parents(g, n) ensures p in Ancestors(g, id) {
      ReachesStep(g, id, n, p);
    }
  }

  /** On a validated graph no ancestor of a registered migration is unregistered. */
  lemma AncestorsMissing(g: Graph, id: string)
    ensures Validated(g) && id in g ==> forall x :: Reaches(g, id, x) ==> x in g
  {
    if Validated(g) && id in g {
      forall x | Reaches(g, id, x) ensures x in g {
        var path :| IsPath(g, path, id, x);
        ClosedReaches(g, g.Keys, path, id, x);
      }
    }
  }

  lemma PendingCovered(g: Graph, applied: set<string>)
    requires Validated(g)
    ensures ParentsCovered(g, applied, g.Keys - applied)
  {
    forall n, p | n in g.Keys - applied && p in Parents(g, n) ensures p in applied || p in g.Keys - applied {
      assert p in g[n];
    }
  }

  /** Unregistered names have no parents, so they lie on no cycle of applied names. */
  lemma ValidatedAcyclic(g: Graph, s: set<string>)
    requires Validated(g)
    ensures !Cyclic(g, s)
  {
    if path :| IsCycle(g, s, path) {
      assert path[1] in Parents(g, path[0]);
      forall i | 0 <= i < |path| ensures path[i] in g.Keys {
        if i < |path| - 1 {
          assert path[i + 1] in Parents(g, path[i]);
        }
      }
      assert IsCycle(g, g.Keys, path);
    }
  }

  // --------------------------------------------------------- states along a run

  /** The applied set after each of the first k migrations is recorded. */
  ghost function AfterApplying(start: set<string>, sorted: seq<string>, k: nat): seq<set<string>>
    requires k <= |sorted|
  {
    seq(k, j requires 0 <= j < k => start + Elements(sorted[..j + 1]))
  }

  lemma AfterApplyingSnoc(start: set<string>, sorted: seq<string>, k: nat)
    requires k < |sorted|
    ensures AfterApplying(start, sorted, k + 1) == AfterApplying(start, sorted, k) + [start + Elements(sorted[..k + 1])]
  {
  }

  lemma AppliedSnoc(trace: seq<set<string>>, start: set<string>, sorted: seq<string>, k: nat)
    requires k < |sorted|
    ensures trace + AfterApplying(start, sorted, k) + [start + Elements(sorted[..k + 1])] ==
            trace + AfterApplying(start, sorted, k + 1)
    ensures start + Elements(sorted[..k + 1]) == start + Elements(sorted[..k]) + {sorted[k]}
  {
    AfterApplyingSnoc(start, sorted, k);
    assert sorted[..k + 1] == sorted[..k] + [sorted[k]];
    ElementsSnoc(sorted[..k], sorted[k]);
  }

  /** The applied set after each migration from the end down to k is unrecorded. */
  ghost function AfterRollingBack(start: set<string>, sorted: seq<string>, k: nat): seq<set<string>>
    requires k <= |sorted|
  {
    seq(|sorted| - k, j requires 0 <= j < |sorted| - k => start - Elements(sorted[|sorted| - j - 1..]))
  }

  lemma ApplyingStart(start: set<string>, sorted: seq<string>)
    ensures Elements(sorted[..0]) == {} && AfterApplying(start, sorted, 0) == []
  {
  }

  lemma RollingBackStart(start: set<string>, sorted: seq<string>)
    ensures Elements(sorted[|sorted|..]) == {} && AfterRollingBack(start, sorted, |sorted|) == []
  {
  }

  lemma AfterRollingBackSnoc(start: set<string>, sorted: seq<string>, k: nat)
    requires k < |sorted|
    ensures AfterRollingBack(start, sorted, k) ==
            AfterRollingBack(start, sorted, k + 1) + [start - Elements(sorted[k..])]
  {
  }

  ghost predicate AllClosed(g: Graph, trace: seq<set<string>>, mark: nat) {
    forall i :: mark <= i < |trace| ==> Closed(g, trace[i])
  }

  lemma ApplyTraceClosed(g: Graph, trace: seq<set<string>>, start: set<string>, pending: set<string>, k: nat)
    requires Closed(g, start) && !Cyclic(g, pending) && k <= |Order(g, pending, {})|
    requires ParentsCovered(g, start, pending)
    ensures AllClosed(g, trace + AfterApplying(start, Order(g, pending, {}), k), |trace|)
    ensures Closed(g, start + Elements(Order(g, pending, {})[..k]))
  {
    hide Order, Cyclic, Closed, ParentsCovered, Elements;
    forall j: nat | j <= k ensures Closed(g, start + Elements(Order(g, pending, {})[..j])) {
      ApplyKeepsClosed(g, start, pending, j);
    }
  }

  lemma RollbackTraceClosed(g: Graph, trace: seq<set<string>>, start: set<string>, going: set<string>, k: nat)
    requires Closed(g, start) && going <= start && !Cyclic(g, going) && k <= |Order(g, going, {})|
    requires ChildrenGo(g, start, going)
    ensures AllClosed(g, trace + AfterRollingBack(start, Order(g, going, {}), k), |trace|)
    ensures Closed(g, start - Elements(Order(g, going, {})[k..]))
  {
    hide Order, Cyclic, Closed, ChildrenGo, Elements;
    forall j: nat | j <= |Order(g, going, {})| ensures Closed(g, start - Elements(Order(g, going, {})[j..])) {
      RollbackKeepsClosed(g, start, going, j);
    }
  }

  lemma PrefixSnoc(s: seq<string>, i: nat)
    requires i < |s| && Distinct(s)
    ensures s[i] !in Elements(s[..i]) && s[i] in Elements(s)
    ensures Elements(s[..i + 1]) == Elements(s[..i]) + {s[i]}
  {
    assert s[..i + 1] == s[..i] + [s[i]];
  }

  lemma PrefixElements(s: seq<string>, i: nat)
    requires i <= |s|
    ensures Elements(s[..i]) <= Elements(s) && Elements(s[i..]) <= Elements(s)
    ensures s[..|s|] == s && s[0..] == s
  {
  }

  lemma SuffixCons(s: seq<string>, i: nat)
    requires i < |s|
    ensures Elements(s[i..]) == Elements(s[i + 1..]) + {s[i]}
  {
    assert s[i..] == [s[i]] + s[i + 1..];
  }

  lemma OrderParentsFirst(g: Graph, todo: set<string>)
    requires !Cyclic(g, todo)
    ensures ParentsFirst(g, todo, Order(g, todo, {}))
  {
    OrderSound(g, todo, {});
    OrderExact(g, todo);
    hide Order, Cyclic;
    assert forall i :: 0 <= i < |Order(g, todo, {})| ==> Order(g, todo, {})[i] in Elements(Order(g, todo, {}));
  }

  lemma ThroughAt(nodes: map<string, Migration>, todo: set<string>, sorted: seq<string>, k: nat, was: set<string>,
      now: set<string>, fault: string -> Outcome, err: Option<Error>)
    requires ParentsFirst(GraphOf(nodes), todo, sorted) && StoppedAt(nodes, sorted, k, was, now, fault, err)
    ensures GotThrough(nodes, todo, was, now, fault, err) && err != Some(CycleDetected)
  {
  }

  lemma BackAt(nodes: map<string, Migration>, going: set<string>, sorted: seq<string>, k: nat, was: set<string>,
      now: set<string>, fault: string -> Outcome, err: Option<Error>)
    requires ParentsFirst(GraphOf(nodes), going, sorted) && HaltedAt(nodes, sorted, k, was, now, fault, err)
    ensures GotBack(nodes, going, was, now, fault, err) && err != Some(CycleDetected)
    ensures k <= |sorted| && now == was - Elements(sorted[k..])
  {
  }

  // -------------------------------------------------------------- the migrator

  class Migrator {
    const hash: string -> string
    var nodes: map<string, Migration>
    var order: seq<string>
    var applied: map<string, string>
    ghost var trace: seq<set<string>>

    ghost predicate Valid()
      reads this
    {
      Distinct(order) && Elements(order) == nodes.Keys
    }

    constructor (hash: string -> string, applied: map<string, string>)
      ensures Valid() && nodes == map[] && this.applied == applied && trace == [] && this.hash == hash
    {
      this.hash := hash;
      this.nodes := map[];
      this.order := [];
      this.applied := applied;
      this.trace := [];
    }

    /** Registers a migration; the code panics on an empty, comma-carrying or repeated id. */
    method Add(id: string, mig: Migration) returns (ok: bool)
      requires Valid()
      modifies this`nodes, this`order
      ensures Valid()
      ensures ok <==> id != "" && ',' !in id && id !in old(nodes)
      ensures nodes == if ok then old(nodes)[id := mig] else old(nodes)
    {
      ok := id != "" && ',' !in id && id !in nodes;
      if ok {
        InElements(order);
        ElementsSnoc(order, id);
        nodes := nodes[id := mig];
        order := order + [id];
      }
    }

    /** Checks for missing parents and cycles without touching the database. */
    method Validate() returns (err: Option<Error>)
      ensures err.None? <==> Validated(GraphOf(nodes))
      ensures err == Some(Missing) <==> exists n, p :: n in nodes && p in nodes[n].parents && p !in nodes
    {
      ghost var g := GraphOf(nodes);
      var left := nodes.Keys;
      while left != {}
        invariant left <= nodes.Keys
        invariant forall n, p :: n in nodes && n !in left && p in nodes[n].parents ==> p in nodes
      {
        var id :| id in left;
        if exists p :: p in nodes[id].parents && p !in nodes {
          ghost var p :| p in nodes[id].parents && p !in nodes;
          assert p in g[id] && p !in g;
          return Some(Missing);
        }
        left := left - {id};
      }
      var names := ListOf(nodes.Keys);
      var sorted := TopoSortSubset(GraphOf(nodes), names);
      assert g.Keys == nodes.Keys;
      return if sorted.None? then Some(CycleDetected) else None;
    }

    ghost predicate Tampered()
      reads this
    {
      exists id :: id in applied && IsTampered(id)
    }

    /** A checksum was recorded, there is SQL to compare it with, and its checksum is another. */
    ghost predicate IsTampered(id: string)
      requires id in applied
      reads this
    {
      applied[id] != "" && id in nodes && nodes[id].upSQL != "" && hash(nodes[id].upSQL) != applied[id]
    }

    /** What is newly recorded has the checksum of its SQL, and what was recorded keeps its own. */
    ghost predicate RecordedSince(before: map<string, string>)
      reads this
    {
      && (forall n :: n in applied && n in before ==> applied[n] == before[n])
      && forall n :: n in applied && n !in before ==>
           n in nodes && applied[n] == if nodes[n].upSQL == "" then "" else hash(nodes[n].upSQL)
    }

    method CheckTampering() returns (tampered: bool)
      ensures tampered <==> Tampered()
    {
      var left := applied.Keys;
      while left != {}
        invariant left <= applied.Keys
        invariant forall id :: id in applied && id !in left ==> !IsTampered(id)
      {
        var id :| id in left;
        left := left - {id};
        if applied[id] == "" {
          continue;
        }
        if id !in nodes || nodes[id].upSQL == "" {
          continue;
        }
        if hash(nodes[id].upSQL) != applied[id] {
          assert IsTampered(id);
          return true;
        }
      }
      return false;
    }

    /**
      Runs one migration's Up and records it. A failure leaves it unrecorded, or recorded with its
      branch row missing.
     */
    method ApplyOne(id: string, outcome: Outcome) returns (err: Option<Error>)
      requires id in nodes && id !in applied
      modifies this`applied, this`trace
      ensures err.None? <==> nodes[id].hasUp && outcome == Works
      ensures err == Some(NoUp) <==> !nodes[id].hasUp
      ensures err.None? || err == Some(NoUp) || err == Some(StepFailed)
      ensures var recorded := nodes[id].hasUp && outcome != Fails;
              var checksum := if nodes[id].upSQL == "" then "" else hash(nodes[id].upSQL);
              && applied == (if recorded then old(applied)[id := checksum] else old(applied))
              && trace == if recorded then old(trace) + [applied.Keys] else old(trace)
    {
      if !nodes[id].hasUp {
        return Some(NoUp);
      }
      if outcome == Fails {
        return Some(StepFailed);
      }
      var checksum := "";
      if nodes[id].upSQL != "" {
        checksum := hash(nodes[id].upSQL);
      }
      applied := applied[id := checksum];
      trace := trace + [applied.Keys];
      return if outcome == Works then None else Some(StepFailed);
    }

    /** Runs one migration's Down and unrecords it; an unregistered migration has no Down. */
    method RollbackOne(id: string, outcome: Outcome) returns (err: Option<Error>)
      modifies this`applied, this`trace
      ensures err.None? <==> id in nodes && nodes[id].hasDown && outcome == Works
      ensures err == Some(Irreversible) <==> id !in nodes || !nodes[id].hasDown
      ensures err.None? || err == Some(Irreversible) || err == Some(StepFailed)
      ensures applied == (if err.None? then old(applied) - {id} else old(applied))
      ensures trace == if err.None? then old(trace) + [applied.Keys] else old(trace)
    {
      if id !in nodes || !nodes[id].hasDown {
        return Some(Irreversible);
      }
      if outcome != Works {
        return Some(StepFailed);
      }
      applied := applied - {id};
      trace := trace + [applied.Keys];
      return None;
    }

    /** Applies migrations in the given order, stopping at the first failure: k of them get recorded. */
    method ApplyInOrder(sorted: seq<string>, fault: string -> Outcome)
      returns (err: Option<Error>, ghost k: nat, ghost at: nat)
      requires Distinct(sorted) && Elements(sorted) <= nodes.Keys && Elements(sorted) !! applied.Keys
      modifies this`applied, this`trace
      ensures StoppedAt(nodes, sorted, at, old(applied.Keys), applied.Keys, fault, err)
      ensures k <= |sorted| && applied.Keys == old(applied.Keys) + Elements(sorted[..k])
      ensures trace == old(trace) + AfterApplying(old(applied.Keys), sorted, k)
      ensures RecordedSince(old(applied))
    {
      hide AfterApplying, Elements, Distinct;
      ghost var start := applied.Keys;
      ApplyingStart(start, sorted);
      for i := 0 to |sorted|
        invariant applied.Keys == start + Elements(sorted[..i])
        invariant forall j :: 0 <= j < i ==> Applies(nodes, sorted[j], fault)
        invariant trace == old(trace) + AfterApplying(start, sorted, i)
        invariant RecordedSince(old(applied))
      {
        var id := sorted[i];
        PrefixSnoc(sorted, i);
        AppliedSnoc(old(trace), start, sorted, i);
        ghost var recorded := nodes[id].hasUp && fault(id) != Fails;
        ghost var was := applied.Keys;
        err := ApplyOne(id, fault(id));
        assert applied.Keys == if recorded then was + {id} else was;
        if err.Some? {
          k, at := if nodes[id].hasUp && fault(id) != Fails then i + 1 else i, i;
          return;
        }
      }
      assert sorted[..|sorted|] == sorted;
      k, at := |sorted|, |sorted|;
      err := None;
    }

    /**
      Rolls migrations back from the end of the given order, stopping at the first failure: those
      from k on are gone.
     */
    method RollbackInReverse(sorted: seq<string>, fault: string -> Outcome) returns (err: Option<Error>, ghost k: nat)
      modifies this`applied, this`trace
      ensures HaltedAt(nodes, sorted, k, old(applied.Keys), applied.Keys, fault, err)
      ensures trace == old(trace) + AfterRollingBack(old(applied.Keys), sorted, k)
      ensures RecordedSince(old(applied))
    {
      hide AfterRollingBack, Elements;
      ghost var start := applied.Keys;
      var i := |sorted|;
      RollingBackStart(start, sorted);
      while i > 0
        invariant 0 <= i <= |sorted|
        invariant applied.Keys == start - Elements(sorted[i..]) && RecordedSince(old(applied))
        invariant forall j :: i <= j < |sorted| ==> Undoes(nodes, sorted[j], fault)
        invariant trace == old(trace) + AfterRollingBack(start, sorted, i)
      {
        SuffixCons(sorted, i - 1);
        AfterRollingBackSnoc(start, sorted, i - 1);
        ghost var before := AfterRollingBack(start, sorted, i);
        err := RollbackOne(sorted[i - 1], fault(sorted[i - 1]));
        assert old(trace) + before + [applied.Keys] == old(trace) + (before + [applied.Keys]);
        if err.Some? {
          k := i;
          return;
        }
        i := i - 1;
      }
      k := 0;
      err := None;
    }

    /** Applied migrations no applied one builds on, sorted by name. */
    method ComputeHeads() returns (heads: seq<string>)
      ensures Sorted(heads) && Elements(heads) == Heads(GraphOf(nodes), applied.Keys)
    {
      heads := [];
      var left := applied.Keys;
      while left != {}
        invariant left <= applied.Keys && Distinct(heads)
        invariant Elements(heads) == Heads(GraphOf(nodes), applied.Keys) - left
      {
        var id :| id in left;
        var isHead := forall c :: c in nodes && c in applied ==> id !in nodes[c].parents;
        if isHead {
          InElements(heads);
          ElementsSnoc(heads, id);
          heads := heads + [id];
        }
        left := left - {id};
      }
      heads := SortStrings(heads);
    }

    /** Every state recorded since `mark`, and the current one, is closed. */
    ghost predicate KeptClosed(mark: nat)
      reads this
    {
      Closed(GraphOf(nodes), applied.Keys) && AllClosed(GraphOf(nodes), trace, mark)
    }

    /** Sorts and applies a set of pending migrations. */
    method ApplySet(pending: seq<string>, fault: string -> Outcome) returns (err: Option<Error>)
      requires Distinct(pending) && Elements(pending) <= nodes.Keys && Elements(pending) !! applied.Keys
      modifies this`applied, this`trace
      ensures old(trace) <= trace
      ensures err == Some(CycleDetected) <==> Cyclic(GraphOf(nodes), Elements(pending))
      ensures err == Some(CycleDetected) ==> applied == old(applied)
      ensures err != Some(CycleDetected) ==>
        && GotThrough(nodes, Elements(pending), old(applied.Keys), applied.Keys, fault, err)
        && (err.None? <==> AllApply(nodes, Elements(pending), fault))
        && err in {None, Some(NoUp), Some(StepFailed)}
      ensures err.None? ==> applied.Keys == old(applied.Keys) + Elements(pending)
      ensures old(applied.Keys) <= applied.Keys <= old(applied.Keys) + Elements(pending)
      ensures RecordedSince(old(applied))
      ensures (Closed(GraphOf(nodes), old(applied.Keys))
               && ParentsCovered(GraphOf(nodes), old(applied.Keys), Elements(pending))) ==>
        KeptClosed(|old(trace)|)
    {
      ghost var g, start, todo := GraphOf(nodes), applied.Keys, Elements(pending);
      var sorted := TopoSortSubset(GraphOf(nodes), pending);
      if sorted.None? {
        return Some(CycleDetected);
      }
      OrderSound(g, todo, {});
      OrderExact(g, todo);
      ghost var k;
      OrderParentsFirst(g, todo);
      hide *;
      ghost var at;
      err, k, at := ApplyInOrder(sorted.value, fault);
      ThroughAt(nodes, todo, sorted.value, at, start, applied.Keys, fault, err);
      ThroughIff(nodes, todo, start, applied.Keys, fault, err);
      if Closed(g, start) && ParentsCovered(g, start, todo) {
        ApplyTraceClosed(g, old(trace), start, todo, k);
        KeptFrom(|old(trace)|);
      }
    }

    lemma KeptFrom(mark: nat)
      requires Closed(GraphOf(nodes), applied.Keys) && AllClosed(GraphOf(nodes), trace, mark)
      ensures KeptClosed(mark)
    {
    }

    /** Sorts a set of applied migrations and rolls it back from the end. */
    method RollbackSet(going: seq<string>, fault: string -> Outcome) returns (err: Option<Error>)
      requires Distinct(going) && Elements(going) <= applied.Keys
      modifies this`applied, this`trace
      ensures old(trace) <= trace
      ensures err == Some(CycleDetected) <==> Cyclic(GraphOf(nodes), Elements(going))
      ensures err == Some(CycleDetected) ==> applied == old(applied)
      ensures err != Some(CycleDetected) ==>
        && GotBack(nodes, Elements(going), old(applied.Keys), applied.Keys, fault, err)
        && (err.None? <==> AllUndo(nodes, Elements(going), fault))
        && err in {None, Some(Irreversible), Some(StepFailed)}
      ensures err.None? ==> applied.Keys == old(applied.Keys) - Elements(going)
      ensures old(applied.Keys) - Elements(going) <= applied.Keys <= old(applied.Keys)
      ensures RecordedSince(old(applied))
      ensures (Closed(GraphOf(nodes), old(applied.Keys))
               && ChildrenGo(GraphOf(nodes), old(applied.Keys), Elements(going))) ==>
        KeptClosed(|old(trace)|)
    {
      ghost var g, start, gone := GraphOf(nodes), applied.Keys, Elements(going);
      var sorted := TopoSortSubset(GraphOf(nodes), going);
      if sorted.None? {
        return Some(CycleDetected);
      }
      OrderSound(g, gone, {});
      OrderExact(g, gone);
      ghost var k;
      OrderParentsFirst(g, gone);
      hide *;
      err, k := RollbackInReverse(sorted.value, fault);
      BackAt(nodes, gone, sorted.value, k, start, applied.Keys, fault, err);
      BackIff(nodes, gone, start, applied.Keys, fault, err);
      if Closed(g, start) && ChildrenGo(g, start, gone) {
        RollbackTraceClosed(g, old(trace), start, gone, k);
        KeptFrom(|old(trace)|);
      }
    }

    method Pending() returns (pending: seq<string>)
      requires Valid()
      ensures Distinct(pending) && Elements(pending) == nodes.Keys - applied.Keys
    {
      pending := [];
      for i := 0 to |order|
        invariant Distinct(pending)
        invariant forall x :: x in pending <==> x in order[..i] && x !in applied
      {
        if order[i] !in applied {
          pending := pending + [order[i]];
        }
        assert order[..i + 1] == order[..i] + [order[i]];
      }
      assert order[..|order|] == order;
      InElements(order);
      InElements(pending);
    }

    /** Applies every pending migration. */
    method Up(fault: string -> Outcome) returns (err: Option<Error>)
      requires Valid()
      modifies this`applied, this`trace
      ensures old(trace) <= trace
      ensures old(Tampered()) <==> err == Some(MigrationTampered)
      ensures old(Tampered()) ==> applied == old(applied)
      ensures err == Some(CycleDetected) <==>
              !old(Tampered()) && Cyclic(GraphOf(nodes), nodes.Keys - old(applied.Keys))
      ensures !old(Tampered()) && err != Some(CycleDetected) ==>
        GotThrough(nodes, nodes.Keys - old(applied.Keys), old(applied.Keys), applied.Keys, fault, err)
      ensures Validated(GraphOf(nodes)) && !old(Tampered()) ==>
        (err.None? <==> AllApply(nodes, nodes.Keys - old(applied.Keys), fault))
      ensures err.None? ==> applied.Keys == old(applied.Keys) + nodes.Keys
      ensures old(applied.Keys) <= applied.Keys <= old(applied.Keys) + nodes.Keys
      ensures RecordedSince(old(applied))
      ensures Validated(GraphOf(nodes)) && Closed(GraphOf(nodes), old(applied.Keys)) ==>
                KeptClosed(|old(trace)|) && err != Some(CycleDetected)
    {
      var tampered := CheckTampering();
      if tampered {
        return Some(MigrationTampered);
      }
      var pending := Pending();
      ghost var g, todo := GraphOf(nodes), nodes.Keys - applied.Keys;
      if Validated(g) {
        ValidatedAcyclic(g, todo);
        PendingCovered(g, applied.Keys);
        assert g.Keys == nodes.Keys;
      }
      hide Cyclic, Closed, KeptClosed, Elements, ParentsCovered, Tampered, GotThrough, AllApply;
      err := ApplySet(pending, fault);
    }

    /** Applies the target and its unapplied ancestors. */
    method UpTo(id: string, fault: string -> Outcome) returns (err: Option<Error>)
      modifies this`applied, this`trace
      ensures old(trace) <= trace
      ensures old(Tampered()) <==> err == Some(MigrationTampered)
      ensures old(Tampered()) ==> applied == old(applied)
      ensures !old(Tampered()) && id in old(applied) ==> err.None? && applied == old(applied)
      ensures err == Some(Unknown) <==> !old(Tampered()) && id !in old(applied) && id !in nodes
      ensures err == Some(Unknown) || err == Some(Missing) ==> applied == old(applied)
      ensures !old(Tampered()) && id !in old(applied) && err !in {Some(Unknown), Some(Missing), Some(CycleDetected)} ==>
        var was := old(applied.Keys);
        GotThrough(nodes, Ancestors(GraphOf(nodes), id) - was, was, applied.Keys, fault, err)
      ensures Validated(GraphOf(nodes)) && !old(Tampered()) && id !in old(applied) && id in nodes ==>
        (err.None? <==> AllApply(nodes, Ancestors(GraphOf(nodes), id) - old(applied.Keys), fault))
      ensures err.None? && id !in old(applied) ==> applied.Keys == old(applied.Keys) + Ancestors(GraphOf(nodes), id)
      ensures RecordedSince(old(applied))
      ensures Validated(GraphOf(nodes)) && Closed(GraphOf(nodes), old(applied.Keys)) ==>
                KeptClosed(|old(trace)|) && err != Some(CycleDetected) && err != Some(Missing)
    {
      var tampered := CheckTampering();
      if tampered {
        return Some(MigrationTampered);
      }
      if id in applied {
        return None;
      }
      ghost var g := GraphOf(nodes);
      var want := AncestorsOf(GraphOf(nodes), id);
      if want.Err? {
        AncestorsMissing(g, id);
        return Some(if want.error == UnknownMigration then Unknown else Missing);
      }
      assert want.value == Ancestors(g, id);
      var pending := ListOf(want.value - applied.Keys);
      ghost var todo := want.value - applied.Keys;
      if Validated(g) {
        ValidatedAcyclic(g, todo);
        AncestorsClosed(g, id);
        assert ParentsCovered(g, applied.Keys, todo);
      }
      hide Cyclic, Closed, KeptClosed, Elements, ParentsCovered, Ancestors, Tampered, GotThrough, AllApply;
      err := ApplySet(pending, fault);
    }

    /** Rolls back whatever is applied outside a parent-closed set. */
    method Retreat(want: set<string>, fault: string -> Outcome) returns (err: Option<Error>)
      modifies this`applied, this`trace
      ensures old(trace) <= trace && RecordedSince(old(applied))
      ensures err == Some(CycleDetected) ==> !Validated(GraphOf(nodes))
      ensures err != Some(CycleDetected) ==>
        && GotBack(nodes, old(applied.Keys) - want, old(applied.Keys), applied.Keys, fault, err)
        && (err.None? <==> AllUndo(nodes, old(applied.Keys) - want, fault))
        && err in {None, Some(Irreversible), Some(StepFailed)}
      ensures err.None? ==> applied.Keys == old(applied.Keys) * want
      ensures Validated(GraphOf(nodes)) && Closed(GraphOf(nodes), old(applied.Keys)) && Closed(GraphOf(nodes), want) ==>
                KeptClosed(|old(trace)|)
    {
      ghost var g := GraphOf(nodes);
      var going := ListOf(applied.Keys - want);
      if Validated(g) {
        ValidatedAcyclic(g, applied.Keys - want);
      }
      assert Closed(g, want) ==> ChildrenGo(g, applied.Keys, applied.Keys - want);
      hide Cyclic, Closed, KeptClosed, Elements, ChildrenGo, Validated, GotBack, AllUndo;
      err := RollbackSet(going, fault);
    }

    /** Applies whatever of a parent-closed set of registered migrations is not applied. */
    method Advance(want: set<string>, fault: string -> Outcome) returns (err: Option<Error>)
      requires want <= nodes.Keys
      modifies this`applied, this`trace
      ensures old(trace) <= trace && RecordedSince(old(applied))
      ensures err == Some(CycleDetected) ==> !Validated(GraphOf(nodes))
      ensures err != Some(CycleDetected) ==>
        && GotThrough(nodes, want - old(applied.Keys), old(applied.Keys), applied.Keys, fault, err)
        && (err.None? <==> AllApply(nodes, want - old(applied.Keys), fault))
        && err in {None, Some(NoUp), Some(StepFailed)}
      ensures err.None? ==> applied.Keys == old(applied.Keys) + want
      ensures Validated(GraphOf(nodes)) && Closed(GraphOf(nodes), old(applied.Keys)) && Closed(GraphOf(nodes), want) ==>
                KeptClosed(|old(trace)|)
    {
      ghost var g := GraphOf(nodes);
      var pending := ListOf(want - applied.Keys);
      if Validated(g) {
        ValidatedAcyclic(g, want - applied.Keys);
      }
      assert Closed(g, want) ==> ParentsCovered(g, applied.Keys, want - applied.Keys);
      hide Cyclic, Closed, KeptClosed, Elements, ParentsCovered, Validated, GotThrough, AllApply;
      err := ApplySet(pending, fault);
    }

    /** Rolls back and applies so as to land on the target's ancestor set. */
    method Checkout(id: string, fault: string -> Outcome) returns (err: Option<Error>)
      modifies this`applied, this`trace
      ensures old(trace) <= trace
      ensures err.None? ==> applied.Keys == Ancestors(GraphOf(nodes), id)
      ensures err == Some(Unknown) <==> id !in nodes
      ensures err == Some(Unknown) || err == Some(Missing) ==> applied == old(applied)
      ensures Validated(GraphOf(nodes)) && id in nodes ==>
        var (was, want) := (old(applied.Keys), Ancestors(GraphOf(nodes), id));
        if AllUndo(nodes, was - want, fault)
        then GotThrough(nodes, want - was, was * want, applied.Keys, fault, err)
        else err.Some? && GotBack(nodes, was - want, was, applied.Keys, fault, err)
      ensures Validated(GraphOf(nodes)) && id in nodes ==>
        var (was, want) := (old(applied.Keys), Ancestors(GraphOf(nodes), id));
        err.None? <==> AllUndo(nodes, was - want, fault) && AllApply(nodes, want - was, fault)
      ensures Validated(GraphOf(nodes)) && Closed(GraphOf(nodes), old(applied.Keys)) ==>
                KeptClosed(|old(trace)|) && err != Some(CycleDetected) && err != Some(Missing)
    {
      ghost var g := GraphOf(nodes);
      var found := AncestorsOf(GraphOf(nodes), id);
      AncestorsMissing(g, id);
      if found.Err? {
        return Some(if found.error == UnknownMigration then Unknown else Missing);
      }
      var want := found.value;
      assert want == Ancestors(g, id);
      if Validated(g) {
        AncestorsClosed(g, id);
      }
      hide Cyclic, Closed, Elements, Ancestors, Validated, GotBack, GotThrough, AllUndo, AllApply, RecordedSince;
      err := Retreat(want, fault);
      if err.Some? {
        return;
      }
      assert want - applied.Keys == want - old(applied.Keys);
      ghost var middle := trace;
      err := Advance(want, fault);
      ghost var mark := |old(trace)|;
      assert AllClosed(g, middle, mark) && AllClosed(g, trace, |middle|) ==> AllClosed(g, trace, mark) by {
        assert forall i :: 0 <= i < |middle| ==> trace[i] == middle[i];
      }
    }

    /** Rolls back every head. */
    method Down(fault: string -> Outcome) returns (err: Option<Error>)
      modifies this`applied, this`trace
      ensures old(trace) <= trace
      ensures err.None? ==> applied.Keys == old(applied.Keys) - Heads(GraphOf(nodes), old(applied.Keys))
      ensures err == Some(NothingApplied) <==> Heads(GraphOf(nodes), old(applied.Keys)) == {}
      ensures err == Some(NothingApplied) ==> applied == old(applied)
      ensures err !in {Some(NothingApplied), Some(CycleDetected)} ==>
        GotBack(nodes, Heads(GraphOf(nodes), old(applied.Keys)), old(applied.Keys), applied.Keys, fault, err)
      ensures Validated(GraphOf(nodes)) && Heads(GraphOf(nodes), old(applied.Keys)) != {} ==>
        (err.None? <==> AllUndo(nodes, Heads(GraphOf(nodes), old(applied.Keys)), fault))
      ensures RecordedSince(old(applied))
      ensures Validated(GraphOf(nodes)) && Closed(GraphOf(nodes), old(applied.Keys)) ==>
                KeptClosed(|old(trace)|) && err != Some(CycleDetected)
    {
      ghost var g := GraphOf(nodes);
      var heads := ComputeHeads();
      InElements(heads);
      if |heads| == 0 {
        return Some(NothingApplied);
      }
      SortedIsDistinct(heads);
      assert heads[0] in Elements(heads);
      if Validated(g) {
        ValidatedAcyclic(g, Elements(heads));
      }
      assert ChildrenGo(g, applied.Keys, Heads(g, applied.Keys));
      hide Cyclic, Closed, KeptClosed, Elements, ChildrenGo, Heads, GotBack, AllUndo;
      err := RollbackSet(heads, fault);
    }

    /** The registered ones among these that build on the migration, in one step or more. */
    ghost function Above(id: string, among: set<string>): set<string>
      reads this
    {
      set n | n in among && n in nodes && StrictlyReaches(GraphOf(nodes), n, id)
    }

    /** Rolls back the applied strict descendants of an applied migration. */
    method DownTo(id: string, fault: string -> Outcome) returns (err: Option<Error>)
      modifies this`applied, this`trace
      ensures old(trace) <= trace
      ensures err == Some(Unknown) <==> id !in old(applied)
      ensures err == Some(Unknown) || err == Some(NothingApplied) ==> applied == old(applied)
      ensures err == Some(NothingApplied) <==> id in old(applied) && Above(id, old(applied.Keys)) == {}
      ensures err !in {Some(Unknown), Some(NothingApplied), Some(CycleDetected)} ==>
        GotBack(nodes, Above(id, old(applied.Keys)), old(applied.Keys), applied.Keys, fault, err)
      ensures Validated(GraphOf(nodes)) && id in old(applied) && Above(id, old(applied.Keys)) != {} ==>
        (err.None? <==> AllUndo(nodes, Above(id, old(applied.Keys)), fault))
      ensures RecordedSince(old(applied))
      ensures err.None? ==> forall n :: n in applied <==>
                n in old(applied) && !(n in nodes && StrictlyReaches(GraphOf(nodes), n, id))
      ensures Validated(GraphOf(nodes)) && Closed(GraphOf(nodes), old(applied.Keys)) ==>
                KeptClosed(|old(trace)|) && err != Some(CycleDetected)
    {
      if id !in applied {
        return Some(Unknown);
      }
      ghost var g := GraphOf(nodes);
      var desc := DescendantsOf(GraphOf(nodes), id);
      var gone := desc * applied.Keys;
      assert gone == Above(id, applied.Keys);
      var going := ListOf(gone);
      InElements(going);
      if |going| == 0 {
        return Some(NothingApplied);
      }
      if Validated(g) {
        ValidatedAcyclic(g, gone);
      }
      forall c, p | c in applied.Keys && p in Parents(g, c) && p in gone ensures c in gone {
        StrictIsReach(g, p, id);
      }
      assert ChildrenGo(g, applied.Keys, gone);
      assert going[0] in Elements(going);
      hide Above;
      hide Cyclic, Closed, KeptClosed, Elements, ChildrenGo, Reaches, StrictlyReaches, GotBack, AllUndo;
      err := RollbackSet(going, fault);
    }
  }
}
