/**
  The outbox: a table of events drained under a claim that expires, decoded into changes,
  applied to every sink, and marked once all of them have taken the batch.
 */
module MirrorOutbox {
  import opened Wrappers
  import opened NewestWins
  import opened MirrorVersions

  const EVENT_KIND := "drops.mirror.change"

  /** An event of the shared table. `payload` is what unmarshalling its payload gives. */
  datatype Event = Event(id: int64, kind: string, payload: Option<Change>, createdAt: int64)

  /** Its row: when it may be claimed next, and whether it has been published. */
  datatype Row = Row(event: Event, available: int, published: bool)

  predicate Ours(e: Event) {
    e.kind == EVENT_KIND
  }

  predicate Decodes(e: Event) {
    e.payload.Some?
  }

  /** The change an event carries: its id is the version, whatever the payload says. */
  function ChangeOf(e: Event): (c: Change)
    requires Decodes(e)
    ensures c.op == e.payload.value.op && c.key == e.payload.value.key && c.row == e.payload.value.row
    ensures c.version == TWO_63 + if e.id < 0 then 0 else e.id
    ensures c.at == Some(if e.payload.value.at.Some? then e.payload.value.at.value else e.createdAt)
  {
    var ch := e.payload.value;
    ch.(version := LiveVersion(e.id), at := if ch.at.None? then Some(e.createdAt) else ch.at)
  }

  // ------------------------------------------------------------ the table's statements

  predicate Claimable(r: Row, now: int) {
    !r.published && r.available <= now
  }

  function Available(rows: seq<Row>, now: int): seq<Event> {
    if rows == [] then []
    else
      var last := rows[|rows| - 1];
      Available(rows[..|rows| - 1], now) + if Claimable(last, now) then [last.event] else []
  }

  function Limit(limit: nat): nat {
    if limit == 0 then 50 else limit
  }

  function Upto<T>(s: seq<T>, n: nat): seq<T> {
    if |s| <= n then s else s[..n]
  }

  /** The claim takes the first claimable rows in id order, the order of the table here. */
  function Claim(rows: seq<Row>, now: int, limit: nat): seq<Event> {
    Upto(Available(rows, now), Limit(limit))
  }

  function Ids(events: seq<Event>): set<int64> {
    set e | e in events :: e.id
  }

  function IdSet(ids: seq<int64>): set<int64> {
    set id | id in ids
  }

  function Postponed(rows: seq<Row>, ids: set<int64>, until: int): seq<Row> {
    seq(|rows|, i requires 0 <= i < |rows| =>
      if rows[i].event.id in ids then rows[i].(available := until) else rows[i])
  }

  function Marked(rows: seq<Row>, ids: set<int64>): seq<Row> {
    seq(|rows|, i requires 0 <= i < |rows| =>
      if rows[i].event.id in ids then rows[i].(published := true) else rows[i])
  }

  /** The primary key: ids are distinct, positive and the order of the table. */
  ghost predicate Keyed(rows: seq<Row>) {
    && (forall i :: 0 <= i < |rows| ==> 0 < rows[i].event.id)
    && (forall i, j :: 0 <= i < j < |rows| ==> rows[i].event.id < rows[j].event.id)
  }

  /** Claiming and marking leave the events themselves alone. */
  ghost predicate SameEvents(a: seq<Row>, b: seq<Row>) {
    |a| == |b| && forall i :: 0 <= i < |a| ==> a[i].event == b[i].event
  }

  // ---------------------------------------------------------------- decoding a batch

  function Mine(events: seq<Event>): seq<Event> {
    if events == [] then []
    else
      var last := events[|events| - 1];
      Mine(events[..|events| - 1]) + if Ours(last) then [last] else []
  }

  ghost predicate AllDecode(events: seq<Event>) {
    forall e :: e in events && Ours(e) ==> Decodes(e)
  }

  lemma {:induction false} MineAre(events: seq<Event>)
    ensures forall e :: e in Mine(events) <==> e in events && Ours(e)
    ensures events == [] ==> Mine(events) == []
  {
    if events != [] {
      MineAre(events[..|events| - 1]);
      assert events == events[..|events| - 1] + [events[|events| - 1]];
    }
  }

  lemma MineNext(events: seq<Event>, i: nat)
    requires i < |events|
    ensures Mine(events[..i + 1]) == Mine(events[..i]) + if Ours(events[i]) then [events[i]] else []
  {
    assert events[..i + 1][..i] == events[..i];
  }

  /** A batch: the changes of our events in order and, position by position, the ids they came from. */
  datatype Fetched = Nothing | Faulty | Batch(changes: seq<Change>, ids: seq<int64>)

  ghost predicate BatchOf(events: seq<Event>, r: Fetched) {
    && r.Batch? && |r.changes| == |r.ids| == |events|
    && forall k :: 0 <= k < |events| ==>
         Decodes(events[k]) && r.changes[k] == ChangeOf(events[k]) && r.ids[k] == events[k].id
  }

  /** Somebody else's events are left out with their ids; the first of ours that does not decode fails. */
  method DecodeEvents(drained: seq<Event>) returns (r: Fetched)
    ensures if AllDecode(drained) then BatchOf(Mine(drained), r) else r.Faulty?
  {
    hide ChangeOf;
    var changes: seq<Change> := [];
    var ids: seq<int64> := [];
    for i := 0 to |drained|
      invariant forall j :: 0 <= j < i && Ours(drained[j]) ==> Decodes(drained[j])
      invariant BatchOf(Mine(drained[..i]), Batch(changes, ids))
    {
      var e := drained[i];
      MineNext(drained, i);
      ids := ids + [e.id];
      if !Ours(e) {
        ids := ids[..|ids| - 1];
        continue;
      }
      if !Decodes(e) {
        assert e in drained;
        return Faulty;
      }
      changes := changes + [ChangeOf(e)];
    }
    assert drained[..|drained|] == drained;
    return Batch(changes, ids);
  }

  // -------------------------------------------------------------------- what is kept

  ghost predicate Sourced(rows: seq<Row>, c: Change) {
    exists i :: 0 <= i < |rows| && Carries(rows[i].event, c)
  }

  ghost predicate Carries(e: Event, c: Change) {
    Ours(e) && Decodes(e) && ChangeOf(e) == c
  }

  /** Every sink has the event's change. */
  ghost predicate TakenByAll(taken: seq<seq<Change>>, e: Event) {
    Decodes(e) && forall s :: 0 <= s < |taken| ==> ChangeOf(e) in taken[s]
  }

  /** Marked events of ours are in every sink, and sinks hold nothing the table did not send. */
  ghost predicate Kept(rows: seq<Row>, taken: seq<seq<Change>>) {
    && Keyed(rows)
    && (forall i :: 0 <= i < |rows| && rows[i].published && Ours(rows[i].event) ==>
          TakenByAll(taken, rows[i].event))
    && (forall s, c :: 0 <= s < |taken| && c in taken[s] ==> Sourced(rows, c))
  }

  ghost predicate Grown(before: seq<seq<Change>>, after: seq<seq<Change>>) {
    |before| == |after| && forall s :: 0 <= s < |before| ==> before[s] <= after[s]
  }

  /** No event leaves the table, and what is marked stays marked. */
  ghost predicate NoneLost(before: seq<Row>, after: seq<Row>) {
    forall r :: r in before ==> exists i :: 0 <= i < |after| && Stays(r, after[i])
  }

  ghost predicate Stays(before: Row, after: Row) {
    after.event == before.event && (before.published ==> after.published)
  }

  // ------------------------------------------------------------------------ the pump

  /** A commit can fail before it marks anything, or after. */
  datatype Commit = Done | Refused | AnswerLost

  /**
    How one step is answered: by the drain, by each sink, by the commit. A sink that refuses may
    have applied a part.
   */
  datatype Answer = Answer(drains: bool, refusing: set<nat>, part: nat, commit: Commit, clock: int64)

  /** What else happens to the table. Other consumers publish only their own events. */
  datatype World =
    | Emits(event: Event)
    | Publishes(ids: set<int64>)
    | Claims(ids: set<int64>, until: int)
    | Passes(d: nat)

  datatype Turn = Turn(world: seq<World>, answer: Answer)

  /** The table, the sinks' logs and the time, between two things that happen. */
  datatype Snap = Snap(rows: seq<Row>, taken: seq<seq<Change>>, now: int)

  /** One thing that happens: a step of the pump, or something else. */
  datatype Move = Pumps(answer: Answer) | Happens(w: World)

  /** What a step delivers: the changes of our events in the batch, in order. */
  ghost function Delivered(events: seq<Event>): (r: seq<Change>)
    requires AllDecode(events)
    ensures |r| == |Mine(events)| && ChangesOf(Mine(events), r)
  {
    MineAre(events);
    var mine := Mine(events);
    seq(|mine|, k requires 0 <= k < |mine| => assert mine[k] in mine; ChangeOf(mine[k]))
  }

  ghost function Drained(a: Snap, batch: nat, answer: Answer): seq<Event> {
    if answer.drains then Claim(a.rows, a.now, batch) else []
  }

  /** A log that took the first part of a delivery. */
  ghost predicate Took(before: seq<Change>, after: seq<Change>, changes: seq<Change>) {
    exists n: nat :: n <= |changes| && after == before + changes[..n]
  }

  ghost predicate LogsGrow(a: Snap, b: Snap, events: seq<Event>) {
    |b.taken| == |a.taken| && forall s :: 0 <= s < |a.taken| ==>
      b.taken[s] == a.taken[s] || (AllDecode(events) && Took(a.taken[s], b.taken[s], Delivered(events)))
  }

  ghost predicate LogsTake(a: Snap, b: Snap, events: seq<Event>)
    requires AllDecode(events)
  {
    |b.taken| == |a.taken| && forall s :: 0 <= s < |a.taken| ==> b.taken[s] == a.taken[s] + Delivered(events)
  }

  ghost predicate StepMove(a: Snap, b: Snap, batch: nat, visibility: nat, answer: Answer) {
    var events := Drained(a, batch, answer);
    && b.now == a.now && LogsGrow(a, b, events)
    && b.rows == Stepped(a.rows, events, a.now + visibility, Passed(events, |a.taken|, answer))
    && (Passed(events, |a.taken|, answer) ==> LogsTake(a, b, events))
  }

  /** A new row with an id the table did not have. */
  ghost predicate EmittedAt(rows: seq<Row>, after: seq<Row>, event: Event, now: int, k: nat) {
    && k <= |rows| && 0 < event.id && (forall j :: 0 <= j < |rows| ==> rows[j].event.id != event.id)
    && after == Inserted(rows, k, Row(event, now, false))
  }

  ghost predicate WorldMove(a: Snap, b: Snap, w: World) {
    && b.taken == a.taken
    && match w
       case Emits(event) =>
         && b.now == a.now
         && if event.id > 0 && forall i :: 0 <= i < |a.rows| ==> a.rows[i].event.id != event.id
            then exists k: nat :: EmittedAt(a.rows, b.rows, event, a.now, k)
            else b.rows == a.rows
       case Publishes(ids) => b.now == a.now && b.rows == Marked(a.rows, ForeignIds(a.rows, ids))
       case Claims(ids, until) => b.now == a.now && b.rows == Postponed(a.rows, ids, until)
       case Passes(d) => b.now == a.now + d && b.rows == a.rows
  }

  ghost predicate Moves(a: Snap, b: Snap, batch: nat, visibility: nat, move: Move) {
    match move
    case Pumps(answer) => StepMove(a, b, batch, visibility, answer)
    case Happens(w) => WorldMove(a, b, w)
  }

  /** A run: everything that happened, and the state before and after each. */
  ghost predicate IsPumpRun(trace: seq<Snap>, moves: seq<Move>, batch: nat, visibility: nat) {
    && |trace| == |moves| + 1 && (forall i :: 0 <= i < |trace| ==> Keyed(trace[i].rows))
    && forall i :: 0 <= i < |moves| ==> Moves(trace[i], trace[i + 1], batch, visibility, moves[i])
  }

  lemma RunStarts(a: Snap, batch: nat, visibility: nat)
    requires Kept(a.rows, a.taken)
    ensures IsPumpRun([a], [], batch, visibility)
  {
  }

  lemma FreshId(rows: seq<Row>, taken: seq<seq<Change>>, k: nat, id: int64)
    requires Kept(rows, taken) && k <= |rows| && (forall j :: 0 <= j < k ==> rows[j].event.id < id)
    requires k < |rows| ==> id < rows[k].event.id
    ensures forall j :: 0 <= j < |rows| ==> rows[j].event.id != id
  {
    hide TakenByAll, Sourced;
  }

  lemma RunOn(trace: seq<Snap>, moves: seq<Move>, batch: nat, visibility: nat, b: Snap, move: Move)
    requires IsPumpRun(trace, moves, batch, visibility) && |trace| == |moves| + 1
    requires Moves(trace[|moves|], b, batch, visibility, move) && Kept(b.rows, b.taken)
    ensures IsPumpRun(trace + [b], moves + [move], batch, visibility)
  {
    hide Moves, TakenByAll, Sourced;
  }

  function ForeignIds(rows: seq<Row>, ids: set<int64>): (foreign: set<int64>)
    ensures forall i :: 0 <= i < |rows| && rows[i].event.id in ids && !Ours(rows[i].event) ==>
      rows[i].event.id in foreign
  {
    set r | r in rows && r.event.id in ids && !Ours(r.event) :: r.event.id
  }

  /** The sinks before the s-th took it all, the s-th took a part, the others nothing. */
  ghost predicate StopsAt(before: seq<seq<Change>>, after: seq<seq<Change>>, changes: seq<Change>, s: nat, part: nat) {
    && s < |before| == |after|
    && (forall k :: 0 <= k < s ==> after[k] == before[k] + changes)
    && after[s] == before[s] + (if part < |changes| then changes[..part] else changes)
    && (forall k :: s < k < |before| ==> after[k] == before[k])
  }

  class OutboxPump {
    const batch: nat
    const maxRetry: nat
    const visibility: nat
    var rows: seq<Row>
    var now: int
    var attempt: nat
    var running: bool
    var taken: seq<seq<Change>>

    constructor (batch: nat, maxRetry: nat, visibility: nat, sinks: nat)
      ensures rows == [] && Kept(rows, taken) && running && |taken| == sinks
      ensures this.batch == batch && this.maxRetry == maxRetry && this.visibility == visibility
    {
      this.batch, this.maxRetry, this.visibility := batch, maxRetry, visibility;
      rows, now, attempt, running := [], 0, 0, true;
      taken := seq(sinks, _ => []);
    }

    /**
      Claims up to max events and decodes ours. Somebody else's are skipped and their ids left
      out; the first of ours that does not decode fails the fetch, with the claims taken.
     */
    method Fetch(max: nat, drains: bool) returns (r: Fetched, ghost events: seq<Event>)
      modifies this`rows
      ensures events == if drains then Claim(old(rows), now, max) else []
      ensures rows == Postponed(old(rows), Ids(events), now + visibility)
      ensures r.Nothing? <==> drains && events == []
      ensures r.Faulty? <==> !drains || !AllDecode(events)
      ensures r.Batch? ==> BatchOf(Mine(events), r)
    {
      if !drains {
        assert rows == Postponed(rows, {}, now + visibility);
        return Faulty, [];
      }
      var drained := Claim(rows, now, max);
      events := drained;
      rows := Postponed(rows, Ids(drained), now + visibility);
      if drained == [] {
        return Nothing, events;
      }
      r := DecodeEvents(drained);
    }

    method Fail()
      modifies this`attempt, this`running
      ensures attempt == old(attempt) + 1 && running == !(maxRetry > 0 && old(attempt) + 1 >= maxRetry)
    {
      attempt := attempt + 1;
      running := !(maxRetry > 0 && attempt >= maxRetry);
    }

    /** Hands the batch to each sink in turn and stops at the first that refuses. */
    method ApplyAll(changes: seq<Change>, refusing: set<nat>, part: nat) returns (ok: bool)
      modifies this`taken
      ensures Grown(old(taken), taken)
      ensures forall s, c :: 0 <= s < |taken| && c in taken[s] ==> c in old(taken)[s] || c in changes
      ensures forall s :: 0 <= s < |taken| ==> taken[s] == old(taken)[s] || Took(old(taken)[s], taken[s], changes)
      ensures ok ==> forall s :: 0 <= s < |taken| ==> taken[s] == old(taken)[s] + changes
      ensures ok <==> forall s: nat :: s < |taken| ==> s !in refusing
      ensures !ok ==> exists s: nat :: s < |taken| && s in refusing && StopsAt(old(taken), taken, changes, s, part)
    {
      assert changes[..|changes|] == changes;
      var n := |taken|;
      ghost var was := taken;
      for s := 0 to n
        invariant |taken| == n && forall k: nat :: k < s ==> k !in refusing
        invariant forall k :: 0 <= k < n ==> taken[k] == if k < s then was[k] + changes else was[k]
      {
        if s in refusing {
          var m := if part < |changes| then part else |changes|;
          assert Took(was[s], was[s] + changes[..m], changes);
          taken := taken[s := taken[s] + changes[..m]];
          return false;
        }
        taken := taken[s := taken[s] + changes];
      }
      return true;
    }

    /** Marks the ids; none at all is not a statement. */
    method MarkPublished(ids: seq<int64>, commit: Commit) returns (ok: bool)
      modifies this`rows
      ensures rows == if ids != [] && commit != Refused then Marked(old(rows), IdSet(ids)) else old(rows)
      ensures ok <==> ids == [] || commit == Done
    {
      if ids == [] {
        return true;
      }
      if commit != Refused {
        rows := Marked(rows, IdSet(ids));
      }
      return commit == Done;
    }

    /** Fetch, apply, mark. What was claimed and not marked comes back when the claim expires. */
    method Step(answer: Answer) returns (handled: nat, ok: bool, ghost events: seq<Event>)
      requires Kept(rows, taken)
      modifies this`rows, this`taken, this`attempt, this`running
      ensures events == if answer.drains then Claim(old(rows), now, batch) else []
      ensures rows == Stepped(old(rows), events, now + visibility, Passed(events, |taken|, answer))
      ensures StepMove(Snap(old(rows), old(taken), now), Snap(rows, taken, now), batch, visibility, answer)
      ensures Kept(rows, taken) && Grown(old(taken), taken)
      ensures !ok ==> handled == 0
      ensures ok ==> handled == |Mine(events)| && (handled > 0 ==> Passed(events, |taken|, answer))
      ensures Passed(events, |taken|, answer) && answer.commit == Done ==> ok
      ensures ok ==> attempt == 0 && running == old(running)
      ensures !ok ==> attempt == old(attempt) + 1 && running == !(maxRetry > 0 && attempt >= maxRetry)
    {
      hide Kept, Postponed, Marked, Claim, Mine;
      var r;
      r, events := Fetch(batch, answer.drains);
      KeptWhenPostponed(old(rows), taken, Ids(events), now + visibility);
      MineAre(events);
      if r.Faulty? {
        Fail();
        return 0, false, events;
      }
      if r.Nothing? {
        NothingMarked(rows, events);
        attempt := 0;
        return 0, true, events;
      }
      ClaimedAreRows(old(rows), now, batch);
      handled, ok := Deliver(r.changes, r.ids, answer, events);
    }

    /** Normalises the batch, hands it to the sinks, and marks its ids when all of them took it. */
    method Deliver(changes: seq<Change>, ids: seq<int64>, answer: Answer, ghost events: seq<Event>)
      returns (handled: nat, ok: bool)
      requires Kept(rows, taken) && BatchOf(Mine(events), Batch(changes, ids)) && InTable(rows, events)
      requires answer.drains && AllDecode(events)
      modifies this`rows, this`taken, this`attempt, this`running
      ensures rows == if Passed(events, |taken|, answer) then Marked(old(rows), Ids(Mine(events))) else old(rows)
      ensures LogsGrow(Snap(old(rows), old(taken), now), Snap(rows, taken, now), events)
      ensures Passed(events, |taken|, answer) ==>
        LogsTake(Snap(old(rows), old(taken), now), Snap(rows, taken, now), events)
      ensures Kept(rows, taken) && Grown(old(taken), taken)
      ensures !ok ==> handled == 0
      ensures ok ==> handled == |Mine(events)| && (handled > 0 ==> Passed(events, |taken|, answer))
      ensures Passed(events, |taken|, answer) && answer.commit == Done ==> ok
      ensures ok ==> attempt == 0 && running == old(running)
      ensures !ok ==> attempt == old(attempt) + 1 && running == !(maxRetry > 0 && attempt >= maxRetry)
    {
      hide Kept, Marked, Mine, Ids, IdSet;
      BatchIds(Mine(events), changes, ids);
      if changes == [] {
        NothingMarked(rows, events);
        ok := MarkPublished(ids, answer.commit);
        attempt := 0;
        return 0, ok;
      }
      var batched: seq<Change> := [];
      for i := 0 to |changes|
        invariant batched == changes[..i]
      {
        batched := batched + [Normalized(changes[i], answer.clock)];
      }
      ghost var before := taken;
      ok := ApplyAll(batched, answer.refusing, answer.part);
      assert ChangesOf(Mine(events), batched);
      assert batched == Delivered(events);
      KeptWhenTaken(rows, before, taken, events, batched);
      if !ok {
        Fail();
        return 0, false;
      }
      KeptWhenMarked(rows, taken, events, batched);
      ok := MarkPublished(ids, answer.commit);
      if ok {
        attempt := 0;
        return |batched|, true;
      }
      Fail();
      return 0, false;
    }

    /** Something else happens to the table between two steps. */
    method Happen(w: World)
      requires Kept(rows, taken)
      modifies this`rows, this`now
      ensures Kept(rows, taken) && NoneLost(old(rows), rows)
      ensures WorldMove(Snap(old(rows), taken, old(now)), Snap(rows, taken, now), w)
    {
      hide Kept, Marked, Postponed, Inserted, ForeignIds;
      NoneLostSelf(rows);
      hide NoneLost;
      match w
      case Emits(event) =>
        var k := 0;
        while k < |rows| && rows[k].event.id < event.id
          invariant k <= |rows| && forall j :: 0 <= j < k ==> rows[j].event.id < event.id
        {
          k := k + 1;
        }
        if event.id > 0 && (k == |rows| || rows[k].event.id != event.id) {
          KeptWhenEmitted(rows, taken, k, event, now);
          FreshId(rows, taken, k, event.id);
          ghost var was := rows;
          rows := Inserted(rows, k, Row(event, now, false));
          assert EmittedAt(was, rows, event, now, k);
        }
      case Publishes(ids) =>
        KeptWhenElsewhere(rows, taken, ids);
        rows := Marked(rows, ForeignIds(rows, ids));
      case Claims(ids, until) =>
        KeptWhenPostponed(rows, taken, ids, until);
        rows := Postponed(rows, ids, until);
      case Passes(d) =>
        now := now + d;
    }

    /**
      Pumps through any number of turns, with anything happening between the steps. However often
      a step is retried, no event leaves the table and none of ours is marked before every sink has it.
     */
    method Run(turns: seq<Turn>) returns (ghost trace: seq<Snap>, ghost moves: seq<Move>)
      requires Kept(rows, taken)
      modifies this
      ensures Kept(rows, taken) && NoneLost(old(rows), rows) && Grown(old(taken), taken)
      ensures IsPumpRun(trace, moves, batch, visibility)
      ensures trace[0] == Snap(old(rows), old(taken), old(now)) && trace[|moves|] == Snap(rows, taken, now)
    {
      hide Kept, NoneLost, Stepped, WorldMove, StepMove, IsPumpRun;
      NoneLostSelf(rows);
      trace, moves := [Snap(rows, taken, now)], [];
      RunStarts(trace[0], batch, visibility);
      var i := 0;
      while i < |turns| && running
        invariant Kept(rows, taken) && NoneLost(old(rows), rows) && Grown(old(taken), taken)
        invariant IsPumpRun(trace, moves, batch, visibility) && |trace| == |moves| + 1
        invariant trace[0] == Snap(old(rows), old(taken), old(now)) && trace[|moves|] == Snap(rows, taken, now)
      {
        var world := turns[i].world;
        for j := 0 to |world|
          invariant Kept(rows, taken) && NoneLost(old(rows), rows) && Grown(old(taken), taken)
          invariant IsPumpRun(trace, moves, batch, visibility) && |trace| == |moves| + 1
          invariant trace[0] == Snap(old(rows), old(taken), old(now)) && trace[|moves|] == Snap(rows, taken, now)
        {
          ghost var was := rows;
          Happen(world[j]);
          NoneLostThen(old(rows), was, rows);
          RunOn(trace, moves, batch, visibility, Snap(rows, taken, now), Happens(world[j]));
          trace, moves := trace + [Snap(rows, taken, now)], moves + [Happens(world[j])];
        }
        ghost var was := rows;
        var handled, ok, events := Step(turns[i].answer);
        RunOn(trace, moves, batch, visibility, Snap(rows, taken, now), Pumps(turns[i].answer));
        trace, moves := trace + [Snap(rows, taken, now)], moves + [Pumps(turns[i].answer)];
        SteppedKeeps(was, events, now + visibility, Passed(events, |taken|, turns[i].answer));
        NoneLostThen(old(rows), was, rows);
        i := i + 1;
      }
    }
  }

  // ------------------------------------------------------------ one step, on the table

  /** Decoded, taken by every sink, and the commit got through to the table. */
  ghost predicate Passed(events: seq<Event>, sinks: nat, answer: Answer) {
    answer.drains && AllDecode(events) && answer.commit != Refused
    && forall s: nat :: s < sinks ==> s !in answer.refusing
  }

  ghost function Stepped(rows: seq<Row>, events: seq<Event>, until: int, passed: bool): seq<Row> {
    var claimed := Postponed(rows, Ids(events), until);
    if passed then Marked(claimed, Ids(Mine(events))) else claimed
  }

  ghost predicate InTable(rows: seq<Row>, events: seq<Event>) {
    forall e :: e in events ==> exists i :: 0 <= i < |rows| && rows[i].event == e
  }

  lemma NothingMarked(rows: seq<Row>, events: seq<Event>)
    requires Mine(events) == []
    ensures Marked(rows, Ids(Mine(events))) == rows
  {
  }

  lemma BatchIds(events: seq<Event>, changes: seq<Change>, ids: seq<int64>)
    requires BatchOf(events, Batch(changes, ids))
    ensures IdSet(ids) == Ids(events) && (ids == [] <==> events == [])
    ensures forall i :: 0 <= i < |changes| ==> changes[i].version != 0 && changes[i].at.Some?
  {
    forall id ensures id in IdSet(ids) <==> id in Ids(events) {
      if id in ids {
        var k :| 0 <= k < |ids| && ids[k] == id;
        assert events[k] in events;
      }
      if id in Ids(events) {
        var k :| 0 <= k < |events| && events[k].id == id;
        assert ids[k] == id;
      }
    }
  }

  lemma {:induction false} AvailableAreRows(rows: seq<Row>, now: int)
    ensures InTable(rows, Available(rows, now))
  {
    if rows != [] {
      AvailableAreRows(rows[..|rows| - 1], now);
      forall e | e in Available(rows, now) ensures exists i :: 0 <= i < |rows| && rows[i].event == e {
        if e in Available(rows[..|rows| - 1], now) {
          var i :| 0 <= i < |rows| - 1 && rows[..|rows| - 1][i].event == e;
          assert rows[i].event == e;
        } else {
          assert rows[|rows| - 1].event == e;
        }
      }
    }
  }

  lemma ClaimedAreRows(rows: seq<Row>, now: int, limit: nat)
    ensures InTable(rows, Claim(rows, now, limit))
    ensures forall ids: set<int64>, until :: InTable(Postponed(rows, ids, until), Claim(rows, now, limit))
  {
    AvailableAreRows(rows, now);
    forall e | e in Claim(rows, now, limit) ensures e in Available(rows, now) {
    }
    forall ids: set<int64>, until ensures InTable(Postponed(rows, ids, until), Claim(rows, now, limit)) {
      forall e | e in Claim(rows, now, limit)
        ensures exists i :: 0 <= i < |rows| && Postponed(rows, ids, until)[i].event == e
      {
        var i :| 0 <= i < |rows| && rows[i].event == e;
        assert Postponed(rows, ids, until)[i].event == e;
      }
    }
  }

  /** Rows with the same events, marked alike or on our behalf with every sink holding them. */
  lemma KeptWhenSame(rows: seq<Row>, taken: seq<seq<Change>>, after: seq<Row>)
    requires Kept(rows, taken) && SameEvents(rows, after)
    requires forall i :: 0 <= i < |rows| && after[i].published && !rows[i].published && Ours(rows[i].event) ==>
      TakenByAll(taken, rows[i].event)
    ensures Kept(after, taken)
  {
    hide TakenByAll, Carries;
    forall s, c | 0 <= s < |taken| && c in taken[s] ensures Sourced(after, c) {
      assert Sourced(rows, c);
      var i :| 0 <= i < |rows| && Carries(rows[i].event, c);
      assert Carries(after[i].event, c);
    }
  }

  lemma KeptWhenPostponed(rows: seq<Row>, taken: seq<seq<Change>>, ids: set<int64>, until: int)
    requires Kept(rows, taken)
    ensures Kept(Postponed(rows, ids, until), taken) && NoneLost(rows, Postponed(rows, ids, until))
  {
    var after := Postponed(rows, ids, until);
    KeptWhenSame(rows, taken, after);
    StaysByPlace(rows, after);
  }

  lemma StaysByPlace(before: seq<Row>, after: seq<Row>)
    requires |before| == |after| && forall i :: 0 <= i < |before| ==> Stays(before[i], after[i])
    ensures NoneLost(before, after)
  {
    forall r | r in before ensures exists i :: 0 <= i < |after| && Stays(r, after[i]) {
      var i :| 0 <= i < |before| && before[i] == r;
      assert Stays(r, after[i]);
    }
  }

  lemma NoneLostSelf(rows: seq<Row>)
    ensures NoneLost(rows, rows)
  {
    StaysByPlace(rows, rows);
  }

  lemma NoneLostThen(a: seq<Row>, b: seq<Row>, c: seq<Row>)
    requires NoneLost(a, b) && NoneLost(b, c)
    ensures NoneLost(a, c)
  {
    forall r | r in a ensures exists i :: 0 <= i < |c| && Stays(r, c[i]) {
      var j :| 0 <= j < |b| && Stays(r, b[j]);
      assert b[j] in b;
      var k :| 0 <= k < |c| && Stays(b[j], c[k]);
      assert Stays(r, c[k]);
    }
  }

  lemma SteppedKeeps(rows: seq<Row>, events: seq<Event>, until: int, passed: bool)
    ensures NoneLost(rows, Stepped(rows, events, until, passed))
  {
    hide Ids, Mine;
    StaysByPlace(rows, Stepped(rows, events, until, passed));
  }

  lemma KeptWhenElsewhere(rows: seq<Row>, taken: seq<seq<Change>>, ids: set<int64>)
    requires Kept(rows, taken)
    ensures var after := Marked(rows, ForeignIds(rows, ids)); Kept(after, taken) && NoneLost(rows, after)
  {
    var foreign := ForeignIds(rows, ids);
    forall i | 0 <= i < |rows| && rows[i].event.id in foreign ensures !Ours(rows[i].event) {
      var j :| 0 <= j < |rows| && rows[j].event.id == rows[i].event.id && !Ours(rows[j].event);
      assert i == j;
    }
    hide ForeignIds, TakenByAll;
    KeptWhenSame(rows, taken, Marked(rows, foreign));
    StaysByPlace(rows, Marked(rows, foreign));
  }

  function Inserted(rows: seq<Row>, k: nat, r: Row): seq<Row>
    requires k <= |rows|
  {
    rows[..k] + [r] + rows[k..]
  }

  /** Where each row is after the insertion, and which row each place holds. */
  lemma InsertedAt(rows: seq<Row>, k: nat, r: Row)
    requires k <= |rows|
    ensures var after := Inserted(rows, k, r);
      && |after| == |rows| + 1 && after[k] == r
      && (forall j :: 0 <= j < k ==> after[j] == rows[j])
      && (forall j :: k < j < |after| ==> after[j] == rows[j - 1])
  {
  }

  lemma InsertedHolds(rows: seq<Row>, k: nat, r: Row, i: nat) returns (j: nat)
    requires k <= |rows| && i < |rows|
    ensures j < |Inserted(rows, k, r)| && Inserted(rows, k, r)[j] == rows[i]
  {
    j := if i < k then i else i + 1;
  }

  lemma KeyedWhenEmitted(rows: seq<Row>, k: nat, event: Event, now: int)
    requires Keyed(rows) && k <= |rows| && 0 < event.id
    requires forall j :: 0 <= j < k ==> rows[j].event.id < event.id
    requires k < |rows| ==> event.id < rows[k].event.id
    ensures Keyed(Inserted(rows, k, Row(event, now, false)))
  {
    InsertedAt(rows, k, Row(event, now, false));
    hide Inserted;
  }

  lemma KeptWhenEmitted(rows: seq<Row>, taken: seq<seq<Change>>, k: nat, event: Event, now: int)
    requires Kept(rows, taken) && k <= |rows| && 0 < event.id
    requires forall j :: 0 <= j < k ==> rows[j].event.id < event.id
    requires k < |rows| ==> event.id < rows[k].event.id
    ensures var after := Inserted(rows, k, Row(event, now, false)); Kept(after, taken) && NoneLost(rows, after)
  {
    hide TakenByAll, Carries, Inserted, Keyed;
    var row := Row(event, now, false);
    var after := Inserted(rows, k, row);
    KeyedWhenEmitted(rows, k, event, now);
    InsertedAt(rows, k, row);
    forall r | r in rows ensures exists i :: 0 <= i < |after| && Stays(r, after[i]) {
      var i :| 0 <= i < |rows| && rows[i] == r;
      var j := InsertedHolds(rows, k, row, i);
      assert Stays(r, after[j]);
    }
    forall s, c | 0 <= s < |taken| && c in taken[s] ensures Sourced(after, c) {
      assert Sourced(rows, c);
      var i :| 0 <= i < |rows| && Carries(rows[i].event, c);
      var j := InsertedHolds(rows, k, row, i);
      assert Carries(after[j].event, c);
    }
  }

  /** A batch taken by some of the sinks: everything they now hold still comes from the table. */
  lemma KeptWhenTaken(rows: seq<Row>, before: seq<seq<Change>>, taken: seq<seq<Change>>, events: seq<Event>,
      batch: seq<Change>)
    requires Kept(rows, before) && Grown(before, taken) && InTable(rows, events) && AllDecode(events)
    requires forall s, c :: 0 <= s < |taken| && c in taken[s] ==> c in before[s] || c in batch
    requires ChangesOf(Mine(events), batch)
    ensures Kept(rows, taken)
  {
    MineAre(events);
    hide Mine;
    forall s, c | 0 <= s < |taken| && c in taken[s] ensures Sourced(rows, c) {
      if c in batch {
        var k :| 0 <= k < |batch| && batch[k] == c;
        assert Mine(events)[k] in Mine(events);
        var i :| 0 <= i < |rows| && rows[i].event == Mine(events)[k];
        assert Carries(rows[i].event, c);
      }
    }
    forall i | 0 <= i < |rows| && rows[i].published && Ours(rows[i].event) ensures TakenByAll(taken, rows[i].event) {
      assert TakenByAll(before, rows[i].event);
    }
  }

  ghost predicate ChangesOf(events: seq<Event>, batch: seq<Change>) {
    |events| == |batch| && forall k :: 0 <= k < |events| ==> Decodes(events[k]) && batch[k] == ChangeOf(events[k])
  }

  /** A batch taken by all of them: its ids may be marked. */
  lemma KeptWhenMarked(rows: seq<Row>, taken: seq<seq<Change>>, events: seq<Event>, batch: seq<Change>)
    requires Kept(rows, taken) && InTable(rows, events) && ChangesOf(Mine(events), batch)
    requires forall s, c :: 0 <= s < |taken| && c in batch ==> c in taken[s]
    ensures Kept(Marked(rows, Ids(Mine(events))), taken)
  {
    MineAre(events);
    var after := Marked(rows, Ids(Mine(events)));
    forall i | 0 <= i < |rows| && after[i].published && !rows[i].published && Ours(rows[i].event)
      ensures TakenByAll(taken, rows[i].event)
    {
      var k :| 0 <= k < |Mine(events)| && Mine(events)[k].id == rows[i].event.id;
      assert Mine(events)[k] in Mine(events);
      var j :| 0 <= j < |rows| && rows[j].event == Mine(events)[k];
      assert i == j;
      assert batch[k] in batch;
    }
    KeptWhenSame(rows, taken, after);
  }

  // --------------------------------------------------------------- and what then shows

  /** An event of ours with this key and none of ours with it later. */
  ghost predicate LatestOf(rows: seq<Row>, i: nat, key: string)
    requires i < |rows|
  {
    && Ours(rows[i].event) && Decodes(rows[i].event) && rows[i].event.payload.value.key == key
    && forall j :: i < j < |rows| && Ours(rows[j].event) && Decodes(rows[j].event) ==>
         rows[j].event.payload.value.key != key
  }

  /** Once the latest event of a key is marked, every sink shows it, whatever was repeated or came out of order. */
  lemma MarkedShows(rows: seq<Row>, taken: seq<seq<Change>>, s: nat, i: nat, key: string)
    requires Kept(rows, taken) && s < |taken| && i < |rows| && LatestOf(rows, i, key) && rows[i].published
    ensures View(taken[s], key) == Some(ChangeOf(rows[i].event))
  {
    var c := ChangeOf(rows[i].event);
    ViewIsHighest(taken[s], key);
    hide View;
    assert c in Written(taken[s]) by {
      assert TakenByAll(taken, rows[i].event);
    }
    var v := View(taken[s], key).value;
    assert Sourced(rows, v);
    var j :| 0 <= j < |rows| && Carries(rows[j].event, v);
    assert rows[i].event.id <= rows[j].event.id;
  }
}
