/** Which events a claim takes, and what comes back after a step. */
module MirrorArrival {
  import opened Wrappers
  import opened MirrorVersions
  import opened MirrorOutbox

  // ---------------------------------------------------------------- what a claim takes

  /** How many rows before the i-th wait to be claimed: not published, and held by no claim. */
  function Ahead(rows: seq<Row>, now: int, i: nat): nat
    requires i <= |rows|
  {
    if i == 0 then 0
    else Ahead(rows, now, i - 1) + if !rows[i - 1].published && rows[i - 1].available <= now then 1 else 0
  }

  lemma {:induction false} AheadIs(rows: seq<Row>, now: int, i: nat)
    requires i <= |rows|
    ensures Ahead(rows, now, i) == |Available(rows[..i], now)|
  {
    if i > 0 {
      AheadIs(rows, now, i - 1);
      assert rows[..i][..i - 1] == rows[..i - 1];
    }
  }

  lemma {:induction false} AvailablePrefix(rows: seq<Row>, now: int, i: nat)
    requires i <= |rows|
    ensures Available(rows[..i], now) <= Available(rows, now)
  {
    if i < |rows| {
      var front := rows[..|rows| - 1];
      AvailablePrefix(front, now, i);
      assert front[..i] == rows[..i];
    } else {
      assert rows[..i] == rows;
    }
  }

  /** A claimable row stands in the list at the place that the claimable rows before it leave. */
  lemma AvailableAt(rows: seq<Row>, now: int, i: nat)
    requires i < |rows| && Claimable(rows[i], now)
    ensures Ahead(rows, now, i) < |Available(rows, now)|
    ensures Available(rows, now)[Ahead(rows, now, i)] == rows[i].event
  {
    AvailablePrefix(rows, now, i + 1);
    AheadIs(rows, now, i);
    assert rows[..i + 1][..i] == rows[..i];
    var upto := Available(rows[..i + 1], now);
    assert upto == Available(rows[..i], now) + [rows[i].event];
    assert upto[Ahead(rows, now, i)] == rows[i].event;
  }

  lemma {:induction false} AvailableFrom(rows: seq<Row>, now: int, k: nat) returns (i: nat)
    requires k < |Available(rows, now)|
    ensures i < |rows| && Claimable(rows[i], now) && Ahead(rows, now, i) == k
    ensures Available(rows, now)[k] == rows[i].event
  {
    var n := |rows| - 1;
    if k < |Available(rows[..n], now)| {
      i := AvailableFrom(rows[..n], now, k);
      assert rows[..n][..i] == rows[..i];
      AheadIs(rows[..n], now, i);
    } else {
      i := n;
    }
    AheadIs(rows, now, i);
  }

  /**
    An event is drained exactly when its row is not published and held by no claim, and fewer such rows
    than the limit, which is 50 where none is given, are ahead of it.
   */
  lemma ClaimedExactly(rows: seq<Row>, now: int, limit: nat, i: nat)
    requires Keyed(rows) && i < |rows|
    ensures rows[i].event.id in Ids(Claim(rows, now, limit)) <==>
            && !rows[i].published && rows[i].available <= now
            && Ahead(rows, now, i) < if limit == 0 then 50 else limit
  {
    var events := Available(rows, now);
    if rows[i].event.id in Ids(Claim(rows, now, limit)) {
      var k :| 0 <= k < |events| && k < Limit(limit) && events[k].id == rows[i].event.id;
      var j := AvailableFrom(rows, now, k);
      assert i == j;
    }
    if Claimable(rows[i], now) && Ahead(rows, now, i) < Limit(limit) {
      AvailableAt(rows, now, i);
      hide Available;
      assert Claim(rows, now, limit)[Ahead(rows, now, i)] == rows[i].event;
    }
  }

  /** One step marks an event of ours exactly when it was drained and passed, and nobody else's at all. */
  lemma SteppedExactly(rows: seq<Row>, now: int, limit: nat, until: int, passed: bool, i: nat)
    requires Keyed(rows) && i < |rows|
    ensures var (after, drained) := (Stepped(rows, Claim(rows, now, limit), until, passed),
                                     rows[i].event.id in Ids(Claim(rows, now, limit)));
      && |after| == |rows| && after[i].event == rows[i].event
      && after[i].published == (rows[i].published || (passed && drained && Ours(rows[i].event)))
      && after[i].available == if drained then until else rows[i].available
  {
    var events := Claim(rows, now, limit);
    ClaimedAreRows(rows, now, limit);
    MineAre(events);
    hide Claim, Mine;
    var id := rows[i].event.id;
    if id in Ids(events) {
      var k :| 0 <= k < |events| && events[k].id == id;
      assert events[k] in events;
      var j :| 0 <= j < |rows| && rows[j].event == events[k];
      assert i == j;
      if Ours(rows[i].event) {
        assert rows[i].event in Mine(events);
      }
    }
    if id in Ids(Mine(events)) {
      var e :| e in Mine(events) && e.id == id;
      assert e in events;
      var j :| 0 <= j < |rows| && rows[j].event == e;
      assert i == j;
    }
  }

  /**
    What a step drained and did not mark is drained again: by the next claim made once the
    visibility timeout is over, exactly when fewer than the limit are ahead of it then.
   */
  lemma UnmarkedComesBack(rows: seq<Row>, now: int, limit: nat, until: int, passed: bool, i: nat, later: int)
    requires Keyed(rows) && i < |rows| && until <= later
    requires rows[i].event.id in Ids(Claim(rows, now, limit)) && !(passed && Ours(rows[i].event))
    ensures var after := Stepped(rows, Claim(rows, now, limit), until, passed);
      && |after| == |rows| && after[i].event == rows[i].event && Claimable(after[i], later)
      && (rows[i].event.id in Ids(Claim(after, later, limit)) <==>
            Ahead(after, later, i) < if limit == 0 then 50 else limit)
  {
    var after := Stepped(rows, Claim(rows, now, limit), until, passed);
    ClaimedExactly(rows, now, limit, i);
    forall j | 0 <= j < |rows| ensures |after| == |rows| && after[j].event == rows[j].event {
      SteppedExactly(rows, now, limit, until, passed, j);
    }
    SteppedExactly(rows, now, limit, until, passed, i);
    hide Claim, Stepped, Ahead;
    assert Keyed(after);
    ClaimedExactly(after, later, limit, i);
  }
}
