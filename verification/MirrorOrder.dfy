/**
  The order a sink that does not compare versions sees. A step that fails leaves its batch under a
  claim, the steps after it deliver later events, and the older batch is delivered after them.
 */
module MirrorOrder {
  import opened Wrappers
  import opened NewestWins
  import opened MirrorVersions
  import opened MirrorOutbox
  import opened MirrorQdrant

  // ---------------------------------------------------------------------- one key's events

  ghost predicate OfKey(e: Event, key: string) {
    Ours(e) && Decodes(e) && e.payload.value.key == key
  }

  ghost predicate HasRow(rows: seq<Row>, e: Event, published: bool) {
    exists i :: 0 <= i < |rows| && rows[i].event == e && rows[i].published == published
  }

  /** The event of the key with the highest id. */
  ghost predicate IsNewest(rows: seq<Row>, e: Event, key: string) {
    OfKey(e, key) && forall i :: 0 <= i < |rows| && OfKey(rows[i].event, key) ==> rows[i].event.id <= e.id
  }

  /** An event of the key that is still to be delivered. */
  ghost predicate LeftBehind(rows: seq<Row>, key: string) {
    exists i :: 0 <= i < |rows| && OfKey(rows[i].event, key) && !rows[i].published
  }

  /** The newest event of the key has been marked. */
  ghost predicate Final(rows: seq<Row>, e: Event, key: string) {
    Keyed(rows) && IsNewest(rows, e, key) && HasRow(rows, e, true)
  }

  /** Nothing of the key is left to deliver, and the newest was delivered last. */
  ghost predicate InOrder(rows: seq<Row>, log: seq<Change>, e: Event, key: string) {
    Decodes(e) && !LeftBehind(rows, key) && LastOf(log, key) == Some(ChangeOf(e))
  }

  // ----------------------------------------------------------- what a delivery ends with

  lemma {:induction false} LastOfConcat(log: seq<Change>, more: seq<Change>, key: string)
    ensures LastOf(log + more, key) == if LastOf(more, key).Some? then LastOf(more, key) else LastOf(log, key)
  {
    if more == [] {
      assert log + more == log;
    } else {
      var front := more[..|more| - 1];
      assert (log + more)[..|log + more| - 1] == log + front;
      LastOfConcat(log, front, key);
    }
  }

  lemma {:induction false} LastOfIs(changes: seq<Change>, key: string)
    ensures match LastOf(changes, key)
      case None => forall c :: c in changes ==> c.key != key
      case Some(c) => c in changes && c.key == key
  {
    if changes != [] {
      LastOfIs(changes[..|changes| - 1], key);
      assert changes == changes[..|changes| - 1] + [changes[|changes| - 1]];
    }
  }

  lemma {:induction false} LastOfAt(changes: seq<Change>, k: nat)
    requires k < |changes| && forall j :: k < j < |changes| ==> changes[j].key != changes[k].key
    ensures LastOf(changes, changes[k].key) == Some(changes[k])
  {
    if k < |changes| - 1 {
      LastOfAt(changes[..|changes| - 1], k);
    }
  }

  /** A delivered change comes from an event of the batch. */
  lemma DeliveredFrom(events: seq<Event>, c: Change) returns (e: Event)
    requires AllDecode(events) && c in Delivered(events)
    ensures e in events && Ours(e) && Decodes(e) && c == ChangeOf(e)
  {
    MineAre(events);
    hide Mine;
    var k :| 0 <= k < |Delivered(events)| && Delivered(events)[k] == c;
    e := Mine(events)[k];
    assert e in Mine(events);
  }

  lemma DeliveredOf(events: seq<Event>, e: Event)
    requires AllDecode(events) && e in events && Ours(e)
    ensures Decodes(e) && ChangeOf(e) in Delivered(events)
  {
    MineAre(events);
    hide Mine;
    var k :| 0 <= k < |Mine(events)| && Mine(events)[k] == e;
    assert Delivered(events)[k] == ChangeOf(e);
  }

  // -------------------------------------------------------------- what the batch holds

  /** The batch is made of pending rows, in the order of their ids. */
  ghost predicate Draws(rows: seq<Row>, events: seq<Event>) {
    && (forall k :: 0 <= k < |events| ==> HasRow(rows, events[k], false))
    && (forall j, k :: 0 <= j < k < |events| ==> events[j].id < events[k].id)
  }

  lemma {:induction false} AvailableDraws(rows: seq<Row>, now: int)
    requires Keyed(rows)
    ensures Draws(rows, Available(rows, now))
    ensures rows != [] ==> forall k :: 0 <= k < |Available(rows, now)| ==>
      Available(rows, now)[k].id <= rows[|rows| - 1].event.id
  {
    if rows != [] {
      var n := |rows| - 1;
      var front := rows[..n];
      AvailableDraws(front, now);
      forall k | 0 <= k < |Available(rows, now)|
        ensures HasRow(rows, Available(rows, now)[k], false) && Available(rows, now)[k].id <= rows[n].event.id
      {
        if k < |Available(front, now)| {
          var i :| 0 <= i < n && front[i].event == Available(front, now)[k] && !front[i].published;
          assert rows[i] == front[i];
        } else {
          assert rows[n].event == Available(rows, now)[k];
        }
      }
    }
  }

  lemma DrainedDraws(a: Snap, batch: nat, answer: Answer)
    requires Keyed(a.rows)
    ensures Draws(a.rows, Drained(a, batch, answer))
  {
    AvailableDraws(a.rows, a.now);
    hide Available, HasRow, Keyed;
  }

  lemma {:induction false} MineSorted(events: seq<Event>)
    requires forall j, k :: 0 <= j < k < |events| ==> events[j].id < events[k].id
    ensures forall j, k :: 0 <= j < k < |Mine(events)| ==> Mine(events)[j].id < Mine(events)[k].id
  {
    if events != [] {
      var front := events[..|events| - 1];
      MineSorted(front);
      MineAre(front);
      forall k | 0 <= k < |Mine(front)| ensures Mine(front)[k].id < events[|events| - 1].id {
        assert Mine(front)[k] in Mine(front);
        var j :| 0 <= j < |front| && front[j] == Mine(front)[k];
      }
    }
  }

  /** Drained with the newest event of its key, a batch delivers that one last. */
  lemma NewestDeliveredLast(rows: seq<Row>, events: seq<Event>, e: Event, key: string)
    requires Draws(rows, events) && AllDecode(events) && IsNewest(rows, e, key) && e in events
    ensures LastOf(Delivered(events), key) == Some(ChangeOf(e))
  {
    MineAre(events);
    MineSorted(events);
    hide Mine;
    var (mine, out) := (Mine(events), Delivered(events));
    var k :| 0 <= k < |mine| && mine[k] == e;
    forall j | k < j < |out| ensures out[j].key != key {
      assert mine[j] in mine;
      var x :| 0 <= x < |events| && events[x] == mine[j];
      assert HasRow(rows, events[x], false);
    }
    LastOfAt(out, k);
  }

  // ------------------------------------------------------------------------- one move

  lemma SteppedRow(rows: seq<Row>, events: seq<Event>, until: int, passed: bool, i: nat)
    requires Keyed(rows) && Draws(rows, events) && i < |rows|
    ensures var after := Stepped(rows, events, until, passed);
      && |after| == |rows| && after[i].event == rows[i].event
      && after[i].published == (rows[i].published || (passed && Ours(rows[i].event) && rows[i].event in events))
  {
    MineAre(events);
    hide Mine;
    var id := rows[i].event.id;
    if id in Ids(Mine(events)) {
      var e :| e in Mine(events) && e.id == id;
      var k :| 0 <= k < |events| && events[k] == e;
      assert HasRow(rows, events[k], false);
      var j :| 0 <= j < |rows| && rows[j].event == e;
      assert i == j;
    }
  }

  /** What a step makes of the table. */
  ghost predicate MarksThese(rows: seq<Row>, after: seq<Row>, events: seq<Event>, passed: bool) {
    SameEvents(rows, after) && forall i :: 0 <= i < |rows| ==>
      after[i].published == (rows[i].published || (passed && Ours(rows[i].event) && rows[i].event in events))
  }

  lemma StepMarks(a: Snap, b: Snap, batch: nat, visibility: nat, answer: Answer)
    requires StepMove(a, b, batch, visibility, answer) && Keyed(a.rows)
    ensures var events := Drained(a, batch, answer);
      Draws(a.rows, events) && MarksThese(a.rows, b.rows, events, Passed(events, |a.taken|, answer))
  {
    DrainedDraws(a, batch, answer);
    var events := Drained(a, batch, answer);
    hide Drained, Draws, Keyed;
    var passed := Passed(events, |a.taken|, answer);
    forall i | 0 <= i < |a.rows|
      ensures |b.rows| == |a.rows| && b.rows[i].event == a.rows[i].event
      ensures b.rows[i].published ==
              (a.rows[i].published || (passed && Ours(a.rows[i].event) && a.rows[i].event in events))
    {
      SteppedRow(a.rows, events, a.now + visibility, passed, i);
    }
    SteppedLength(a.rows, events, a.now + visibility, passed);
  }

  lemma SteppedLength(rows: seq<Row>, events: seq<Event>, until: int, passed: bool)
    ensures |Stepped(rows, events, until, passed)| == |rows|
  {
  }

  lemma FinalStays(rows: seq<Row>, after: seq<Row>, events: seq<Event>, passed: bool, e: Event, key: string)
    requires Keyed(after) && MarksThese(rows, after, events, passed) && Final(rows, e, key)
    ensures Final(after, e, key)
  {
    var i :| 0 <= i < |rows| && rows[i].event == e && rows[i].published;
    assert after[i].event == e && after[i].published;
    hide OfKey;
  }

  /** With nothing of the key pending, nothing of the key is delivered. */
  lemma NothingDelivered(rows: seq<Row>, events: seq<Event>, log: seq<Change>, more: seq<Change>, key: string, n: nat)
    requires Draws(rows, events) && !LeftBehind(rows, key) && AllDecode(events) && n <= |Delivered(events)|
    requires more == log + Delivered(events)[..n]
    ensures LastOf(more, key) == LastOf(log, key)
  {
    var part := Delivered(events)[..n];
    forall c | c in part ensures c.key != key {
      var x := DeliveredFrom(events, c);
      var k :| 0 <= k < |events| && events[k] == x;
      assert HasRow(rows, events[k], false);
    }
    LastOfConcat(log, part, key);
    LastOfIs(part, key);
  }

  /** A pending event and a published one are two events, and their changes two changes. */
  lemma PendingIsAnother(rows: seq<Row>, events: seq<Event>, x: Event, e: Event)
    requires Keyed(rows) && Draws(rows, events) && x in events && HasRow(rows, e, true) && Decodes(x) && Decodes(e)
    ensures ChangeOf(x) != ChangeOf(e)
  {
    var k :| 0 <= k < |events| && events[k] == x;
    assert HasRow(rows, events[k], false);
    var j :| 0 <= j < |rows| && rows[j].event == x && !rows[j].published;
    var m :| 0 <= m < |rows| && rows[m].event == e && rows[m].published;
    assert x.id != e.id;
    assert ChangeOf(x).version != ChangeOf(e).version;
  }

  /** What was left behind and is marked now was delivered after the newest. */
  lemma DeliveredLate(a: Snap, b: Snap, events: seq<Event>, e: Event, key: string, i: nat, s: nat)
    requires Draws(a.rows, events) && AllDecode(events) && Final(a.rows, e, key) && i < |a.rows| && s < |a.taken|
    requires OfKey(a.rows[i].event, key) && a.rows[i].event in events && LogsTake(a, b, events)
    ensures LastOf(b.taken[s], key) != Some(ChangeOf(e))
  {
    hide Delivered, LastOf, Draws, Keyed, HasRow, IsNewest;
    var out := Delivered(events);
    DeliveredOf(events, a.rows[i].event);
    LastOfConcat(a.taken[s], out, key);
    LastOfIs(out, key);
    var x := DeliveredFrom(events, LastOf(out, key).value);
    NewestDecodes(a.rows, e, key);
    PendingIsAnother(a.rows, events, x, e);
  }

  lemma NewestDecodes(rows: seq<Row>, e: Event, key: string)
    requires IsNewest(rows, e, key)
    ensures Decodes(e)
  {
  }

  /** Once the newest event of a key is marked, no step changes whether its log is in order. */
  lemma StepKeeps(a: Snap, b: Snap, batch: nat, visibility: nat, answer: Answer, e: Event, key: string, s: nat)
    requires StepMove(a, b, batch, visibility, answer) && Keyed(a.rows) && Keyed(b.rows)
    requires Final(a.rows, e, key) && s < |a.taken|
    ensures Final(b.rows, e, key) && |b.taken| == |a.taken|
    ensures InOrder(b.rows, b.taken[s], e, key) <==> InOrder(a.rows, a.taken[s], e, key)
  {
    var events := Drained(a, batch, answer);
    var passed := Passed(events, |a.taken|, answer);
    StepMarks(a, b, batch, visibility, answer);
    FinalStays(a.rows, b.rows, events, passed, e, key);
    hide Drained, Draws, Keyed, OfKey, LastOf, Stepped, Final, Delivered, LogsTake;
    if LeftBehind(a.rows, key) {
      if !LeftBehind(b.rows, key) {
        var i :| 0 <= i < |a.rows| && OfKey(a.rows[i].event, key) && !a.rows[i].published;
        assert b.rows[i].published;
        DeliveredLate(a, b, events, e, key, i, s);
      }
    } else {
      if b.taken[s] != a.taken[s] {
        var n: nat :| n <= |Delivered(events)| && b.taken[s] == a.taken[s] + Delivered(events)[..n];
        NothingDelivered(a.rows, events, a.taken[s], b.taken[s], key, n);
      }
    }
  }

  /** The rows of a key's events, with whether each is published. */
  ghost predicate SameKeyRows(rows: seq<Row>, after: seq<Row>, key: string) {
    && (forall i :: 0 <= i < |rows| && OfKey(rows[i].event, key) ==> HasRow(after, rows[i].event, rows[i].published))
    && (forall i :: 0 <= i < |after| && OfKey(after[i].event, key) ==> HasRow(rows, after[i].event, after[i].published))
  }

  lemma SameKeyKeeps(rows: seq<Row>, after: seq<Row>, log: seq<Change>, e: Event, key: string)
    requires SameKeyRows(rows, after, key) && Keyed(after) && Final(rows, e, key)
    ensures Final(after, e, key) && (InOrder(after, log, e, key) <==> InOrder(rows, log, e, key))
  {
    hide OfKey, Keyed, LastOf;
    var m :| 0 <= m < |rows| && rows[m].event == e && rows[m].published;
    assert HasRow(after, rows[m].event, true);
    forall i | 0 <= i < |after| && OfKey(after[i].event, key) ensures after[i].event.id <= e.id {
      var j :| 0 <= j < |rows| && rows[j].event == after[i].event;
    }
    if LeftBehind(rows, key) {
      var i :| 0 <= i < |rows| && OfKey(rows[i].event, key) && !rows[i].published;
      var j :| 0 <= j < |after| && after[j].event == rows[i].event && !after[j].published;
    }
    if LeftBehind(after, key) {
      var i :| 0 <= i < |after| && OfKey(after[i].event, key) && !after[i].published;
      var j :| 0 <= j < |rows| && rows[j].event == after[i].event && !rows[j].published;
    }
  }

  lemma ByPlaceSame(rows: seq<Row>, after: seq<Row>, key: string)
    requires SameEvents(rows, after)
    requires forall i :: 0 <= i < |rows| && OfKey(rows[i].event, key) ==> after[i].published == rows[i].published
    ensures SameKeyRows(rows, after, key)
  {
    hide OfKey;
    forall i | 0 <= i < |rows| && OfKey(rows[i].event, key)
      ensures HasRow(after, rows[i].event, rows[i].published) && HasRow(rows, after[i].event, after[i].published)
    {
      assert after[i].event == rows[i].event;
      assert rows[i].event == after[i].event;
    }
  }

  lemma EmittedSame(rows: seq<Row>, after: seq<Row>, event: Event, now: int, k: nat, key: string)
    requires EmittedAt(rows, after, event, now, k) && !OfKey(event, key)
    ensures SameKeyRows(rows, after, key)
  {
    hide OfKey;
    var r := Row(event, now, false);
    InsertedAt(rows, k, r);
    hide Inserted;
    forall i | 0 <= i < |rows| ensures HasRow(after, rows[i].event, rows[i].published) {
      var j := InsertedHolds(rows, k, r, i);
      assert after[j] == rows[i];
    }
    forall i | 0 <= i < |after| && OfKey(after[i].event, key) ensures HasRow(rows, after[i].event, after[i].published) {
      var j := if i < k then i else i - 1;
      assert i != k && after[i] == rows[j];
    }
  }

  /** Nobody emits an event of this key. */
  predicate Spares(move: Move, key: string) {
    match move
    case Pumps(_) => true
    case Happens(w) =>
      w.Emits? ==> !(Ours(w.event) && Decodes(w.event) && w.event.payload.value.key == key)
  }

  lemma WorldKeeps(a: Snap, b: Snap, w: World, e: Event, key: string, s: nat)
    requires WorldMove(a, b, w) && Spares(Happens(w), key) && Keyed(a.rows) && Keyed(b.rows)
    requires Final(a.rows, e, key) && s < |a.taken|
    ensures Final(b.rows, e, key) && |b.taken| == |a.taken|
    ensures InOrder(b.rows, b.taken[s], e, key) <==> InOrder(a.rows, a.taken[s], e, key)
  {
    assert SameKeyRows(a.rows, b.rows, key) by {
      match w
      case Emits(event) =>
        if b.rows == a.rows {
          ByPlaceSame(a.rows, b.rows, key);
        } else {
          var k: nat :| EmittedAt(a.rows, b.rows, event, a.now, k);
          EmittedSame(a.rows, b.rows, event, a.now, k, key);
        }
      case Publishes(ids) =>
        ForeignOnly(a.rows, ids);
        ByPlaceSame(a.rows, b.rows, key);
      case Claims(ids, until) => ByPlaceSame(a.rows, b.rows, key);
      case Passes(_) => ByPlaceSame(a.rows, b.rows, key);
    }
    hide WorldMove, SameKeyRows;
    SameKeyKeeps(a.rows, b.rows, a.taken[s], e, key);
    WorldLogs(a, b, w);
  }

  lemma WorldLogs(a: Snap, b: Snap, w: World)
    requires WorldMove(a, b, w)
    ensures b.taken == a.taken
  {
  }

  lemma ForeignOnly(rows: seq<Row>, ids: set<int64>)
    requires Keyed(rows)
    ensures forall i :: 0 <= i < |rows| && Ours(rows[i].event) ==> rows[i].event.id !in ForeignIds(rows, ids)
  {
    forall i | 0 <= i < |rows| && Ours(rows[i].event) ensures rows[i].event.id !in ForeignIds(rows, ids) {
      assert forall j :: 0 <= j < |rows| && rows[j].event.id == rows[i].event.id ==> j == i;
    }
  }

  // ------------------------------------------------------------------------- whole runs

  lemma {:induction false} RunKeeps(trace: seq<Snap>, moves: seq<Move>, batch: nat, visibility: nat, j: nat, k: nat,
      e: Event, key: string, s: nat)
    requires IsPumpRun(trace, moves, batch, visibility) && j <= k <= |moves|
    requires Final(trace[j].rows, e, key) && s < |trace[j].taken| && forall i :: j <= i < k ==> Spares(moves[i], key)
    ensures Final(trace[k].rows, e, key) && |trace[k].taken| == |trace[j].taken|
    ensures InOrder(trace[k].rows, trace[k].taken[s], e, key) <==> InOrder(trace[j].rows, trace[j].taken[s], e, key)
    decreases k
  {
    hide Final, InOrder, StepMove, WorldMove, Spares, Keyed;
    if j < k {
      RunKeeps(trace, moves, batch, visibility, j, k - 1, e, key, s);
      assert Moves(trace[k - 1], trace[k - 1 + 1], batch, visibility, moves[k - 1]);
      match moves[k - 1]
      case Pumps(answer) => StepKeeps(trace[k - 1], trace[k], batch, visibility, answer, e, key, s);
      case Happens(w) => WorldKeeps(trace[k - 1], trace[k], w, e, key, s);
    }
  }

  /** Every event of the key that is pending is in this drain. */
  ghost predicate DrainsWhole(a: Snap, batch: nat, answer: Answer, key: string) {
    forall i :: 0 <= i < |a.rows| && OfKey(a.rows[i].event, key) && !a.rows[i].published ==>
      a.rows[i].event in Drained(a, batch, answer)
  }

  /** The step that marks the newest event of a key leaves the log in order exactly when it drained all of them. */
  lemma MarkingStep(a: Snap, b: Snap, batch: nat, visibility: nat, answer: Answer, e: Event, key: string, s: nat)
    requires StepMove(a, b, batch, visibility, answer) && Keyed(a.rows) && Keyed(b.rows) && s < |a.taken|
    requires IsNewest(a.rows, e, key) && HasRow(a.rows, e, false) && HasRow(b.rows, e, true)
    ensures Final(b.rows, e, key) && |b.taken| == |a.taken|
    ensures InOrder(b.rows, b.taken[s], e, key) <==> DrainsWhole(a, batch, answer, key)
  {
    hide Drained, Draws, OfKey, LastOf, Stepped, Delivered, Keyed, HasRow;
    var events := Drained(a, batch, answer);
    var passed := Passed(events, |a.taken|, answer);
    StepMarks(a, b, batch, visibility, answer);
    OursOfKey(e, key);
    MarkedNow(a.rows, b.rows, events, passed, e);
    NewestDeliveredLast(a.rows, events, e, key);
    LastOfConcat(a.taken[s], Delivered(events), key);
    NewestStays(a.rows, b.rows, events, passed, e, key);
    LeftIff(a.rows, b.rows, events, key);
  }

  /** A pending event that is published afterwards was in the batch, and the batch passed. */
  lemma MarkedNow(rows: seq<Row>, after: seq<Row>, events: seq<Event>, passed: bool, e: Event)
    requires MarksThese(rows, after, events, passed) && Keyed(rows)
    requires HasRow(rows, e, false) && HasRow(after, e, true)
    ensures passed && e in events
  {
    var i :| 0 <= i < |rows| && rows[i].event == e && !rows[i].published;
    var j :| 0 <= j < |after| && after[j].event == e && after[j].published;
    assert rows[j].event == e;
    assert i == j;
  }

  lemma NewestStays(rows: seq<Row>, after: seq<Row>, events: seq<Event>, passed: bool, e: Event, key: string)
    requires MarksThese(rows, after, events, passed) && IsNewest(rows, e, key)
    ensures IsNewest(after, e, key)
  {
    hide OfKey;
  }

  /** A batch that passes leaves behind what of the key it did not hold. */
  lemma LeftIff(rows: seq<Row>, after: seq<Row>, events: seq<Event>, key: string)
    requires MarksThese(rows, after, events, true)
    ensures !LeftBehind(after, key) <==>
      forall i :: 0 <= i < |rows| && OfKey(rows[i].event, key) && !rows[i].published ==> rows[i].event in events
  {
    forall i | 0 <= i < |rows| && OfKey(rows[i].event, key)
      ensures after[i].event == rows[i].event && after[i].published == (rows[i].published || rows[i].event in events)
    {
      OursOfKey(rows[i].event, key);
    }
    hide OfKey, MarksThese;
    if LeftBehind(after, key) {
      var i :| 0 <= i < |after| && OfKey(after[i].event, key) && !after[i].published;
      SameRow(rows, after, events, i);
    } else {
      forall i | 0 <= i < |rows| && OfKey(rows[i].event, key) && !rows[i].published ensures rows[i].event in events {
        SameRow(rows, after, events, i);
        assert after[i].published;
      }
    }
  }

  lemma SameRow(rows: seq<Row>, after: seq<Row>, events: seq<Event>, i: nat)
    requires MarksThese(rows, after, events, true) && (i < |rows| || i < |after|)
    ensures |rows| == |after| && rows[i].event == after[i].event
  {
  }

  lemma OursOfKey(e: Event, key: string)
    requires OfKey(e, key)
    ensures Ours(e) && Decodes(e)
  {
  }

  /**
    Over any run of the pump, retries and repeated deliveries included: once every event of a key has
    been marked, the last a sink was handed of it is the newest exactly when the step that marked
    the newest had drained every event of the key that was pending, none of them under another claim.
   */
  lemma LastWriteIsNewestIff(trace: seq<Snap>, moves: seq<Move>, batch: nat, visibility: nat, j: nat,
      e: Event, key: string, s: nat)
    requires IsPumpRun(trace, moves, batch, visibility) && j < |moves| && moves[j].Pumps? && s < |trace[j].taken|
    requires IsNewest(trace[j].rows, e, key) && HasRow(trace[j].rows, e, false) && HasRow(trace[j + 1].rows, e, true)
    requires forall i :: j < i < |moves| ==> Spares(moves[i], key)
    requires !LeftBehind(trace[|moves|].rows, key)
    ensures |trace[|moves|].taken| == |trace[j].taken| && Decodes(e)
    ensures LastOf(trace[|moves|].taken[s], key) == Some(ChangeOf(e)) <==>
            DrainsWhole(trace[j], batch, moves[j].answer, key)
  {
    hide StepMove, WorldMove, Spares, Keyed, DrainsWhole, OfKey, LastOf, Final, HasRow, LeftBehind;
    assert Moves(trace[j], trace[j + 1], batch, visibility, moves[j]);
    MarkingStep(trace[j], trace[j + 1], batch, visibility, moves[j].answer, e, key, s);
    RunKeeps(trace, moves, batch, visibility, j + 1, |moves|, e, key, s);
    OursOfKey(e, key);
  }

  // ------------------------------------------------------------------------- out of order

  lemma AvailableOfTwo(x: Row, y: Row, now: int)
    ensures Available([x, y], now) ==
            (if Claimable(x, now) then [x.event] else []) + (if Claimable(y, now) then [y.event] else [])
  {
    assert [x, y][..1] == [x] && [x][..0] == [];
    assert Available([x], now) == [] + if Claimable(x, now) then [x.event] else [];
  }

  lemma OnlyMine(e: Event)
    requires Ours(e) && Decodes(e)
    ensures AllDecode([e]) && Mine([e]) == [e] && Delivered([e]) == [ChangeOf(e)]
  {
    assert [e][..0] == [];
  }

  lemma SteppedOfTwo(x: Row, y: Row, until: int, first: bool, passed: bool)
    requires x.event.id != y.event.id && Ours((if first then x else y).event) && Decodes((if first then x else y).event)
    ensures var r := if first then x else y;
      var after := r.(available := until, published := r.published || passed);
      Stepped([x, y], [r.event], until, passed) == if first then [after, y] else [x, after]
  {
    var r := if first then x else y;
    OnlyMine(r.event);
    hide Mine;
    assert Ids([r.event]) == {r.event.id};
  }

  lemma ClaimOfTwo(x: Row, y: Row, now: int, first: bool)
    requires Claimable(if first then x else y, now) && (first || !Claimable(x, now))
    ensures Claim([x, y], now, 1) == [(if first then x else y).event]
  {
    AvailableOfTwo(x, y, now);
    hide Available;
  }

  /** A step that drains one event of ours of two rows, refused by the one sink or taken by it. */
  lemma StepOfTwo(a: Snap, b: Snap, x: Row, y: Row, visibility: nat, first: bool, refused: bool)
    requires a.rows == [x, y] && |a.taken| == 1 && x.event.id != y.event.id && b.now == a.now
    requires var r := if first then x else y; Ours(r.event) && Decodes(r.event) && Claimable(r, a.now)
    requires first || !Claimable(x, a.now)
    requires var r := if first then x else y;
      var after := r.(available := a.now + visibility, published := !refused);
      && b.rows == (if first then [after, y] else [x, after])
      && b.taken == (if refused then a.taken else [a.taken[0] + [ChangeOf(r.event)]])
    ensures StepMove(a, b, 1, visibility, Answer(true, if refused then {0} else {}, 0, Done, 0))
  {
    var answer := Answer(true, if refused then {0} else {}, 0, Done, 0);
    var r := if first then x else y;
    ClaimOfTwo(x, y, a.now, first);
    SteppedOfTwo(x, y, a.now + visibility, first, !refused);
    OnlyMine(r.event);
    hide Claim, Stepped, Mine;
    var events := [r.event];
    assert Passed(events, 1, answer) <==> !refused by {
      assert refused ==> 0 in answer.refusing;
    }
    hide Passed;
    if !refused {
      assert Delivered(events)[..1] == Delivered(events);
      assert Took(a.taken[0], b.taken[0], Delivered(events));
    }
  }

  function UpdateEvent(id: int64, c: Change): (e: Event)
    ensures Ours(e) && Decodes(e)
  {
    Event(id, EVENT_KIND, Some(c), 0)
  }

  /** The states of the run below. */
  function StaleTrace(older: Change, newer: Change): seq<Snap> {
    var (e1, e2) := (UpdateEvent(1, older), UpdateEvent(2, newer));
    [Snap([Row(e1, 0, false), Row(e2, 0, false)], [[]], 0),
     Snap([Row(e1, 30, false), Row(e2, 0, false)], [[]], 0),
     Snap([Row(e1, 30, false), Row(e2, 30, true)], [[ChangeOf(e2)]], 0),
     Snap([Row(e1, 30, false), Row(e2, 30, true)], [[ChangeOf(e2)]], 30),
     Snap([Row(e1, 60, true), Row(e2, 30, true)], [[ChangeOf(e2), ChangeOf(e1)]], 30)]
  }

  function StaleMoves(): seq<Move> {
    var (ok, no) := (Answer(true, {}, 0, Done, 0), Answer(true, {0}, 0, Done, 0));
    [Pumps(no), Pumps(ok), Happens(World.Passes(30)), Pumps(ok)]
  }

  lemma StaleMove(older: Change, newer: Change, i: nat)
    requires i < 4
    ensures Moves(StaleTrace(older, newer)[i], StaleTrace(older, newer)[i + 1], 1, 30, StaleMoves()[i])
  {
    var trace := StaleTrace(older, newer);
    var (e1, e2) := (UpdateEvent(1, older), UpdateEvent(2, newer));
    hide StepMove;
    if i == 0 {
      StepOfTwo(trace[0], trace[1], Row(e1, 0, false), Row(e2, 0, false), 30, true, true);
    } else if i == 1 {
      assert [] + [ChangeOf(e2)] == [ChangeOf(e2)];
      StepOfTwo(trace[1], trace[2], Row(e1, 30, false), Row(e2, 0, false), 30, false, false);
    } else if i == 3 {
      assert [ChangeOf(e2)] + [ChangeOf(e1)] == [ChangeOf(e2), ChangeOf(e1)];
      StepOfTwo(trace[3], trace[4], Row(e1, 30, false), Row(e2, 30, true), 30, true, false);
    }
  }

  /**
    Two updates of one key, drained one at a time. The sink refuses the first; the retry drains past
    it and delivers the second; the first is delivered when its claim is over, and is the last write.
   */
  lemma StaleRun(older: Change, newer: Change)
    requires older.key == newer.key
    ensures var (trace, moves) := (StaleTrace(older, newer), StaleMoves());
      && IsPumpRun(trace, moves, 1, 30) && !LeftBehind(trace[4].rows, older.key)
      && LastOf(trace[4].taken[0], older.key) == Some(ChangeOf(UpdateEvent(1, older)))
      && View(trace[4].taken[0], older.key) == Some(ChangeOf(UpdateEvent(2, newer)))
  {
    var trace := StaleTrace(older, newer);
    LastOfAt(trace[4].taken[0], 1);
    NewestOfTwo(KeyOf, VersionOf, trace[4].taken[0][0], trace[4].taken[0][1], older.key);
    hide Moves, LastOf, Newest;
    forall i | 0 <= i < 4 ensures Moves(trace[i], trace[i + 1], 1, 30, StaleMoves()[i]) {
      StaleMove(older, newer, i);
    }
  }

  // ------------------------------------------------------------------ what Qdrant then holds

  /** The last write of a key is what its point holds, where no other key shares the point and no row is declined. */
  lemma {:induction false} PointIsLastWrite(embed: Embedder, points: Points, log: seq<Change>, key: string)
    requires forall c :: c in log ==> !Fails(embed, c) && (c.op != Delete ==> embed(c).value != [])
    requires forall c :: c in log && PointID(c.key) == PointID(key) ==> c.key == key
    ensures LastEffect(embed, log, PointID(key)) ==
            match LastOf(log, key) case None => Untouched case Some(c) => EffectOf(embed, c, PointID(key))
    ensures Found(ApplyEach(embed, points, log), PointID(key)) ==
            match LastOf(log, key)
            case None => Found(points, PointID(key))
            case Some(c) => Override(EffectOf(embed, c, PointID(key)), None)
  {
    hide PointID, ApplyEach;
    LastEffectDecides(embed, points, log, PointID(key));
    LastOfIs(log, key);
    if log != [] {
      var front := log[..|log| - 1];
      assert log == front + [log[|log| - 1]] && log[|log| - 1] in log;
      PointIsLastWrite(embed, points, front, key);
    }
  }
}
