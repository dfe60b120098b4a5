/**
  An event of ours that does not decode. It fails every batch it is drained in, and the rows drained
  with it come back together when the claim is over; the other rows are drained past it meanwhile.
 */
module MirrorPoison {
  import opened Wrappers
  import opened MirrorVersions
  import opened MirrorOutbox
  import opened MirrorArrival
  import opened MirrorSchedule

  /** The place of a row among those pending. */
  ghost function Place(rows: seq<Row>, i: nat): nat
    requires i <= |rows|
  {
    Count(rows, i, IsPending())
  }

  /** Everything pending is ours, and p is the one that does not decode. */
  ghost predicate OnlyPoison(rows: seq<Row>, p: nat) {
    && Keyed(rows) && p < |rows| && !rows[p].published
    && forall i :: 0 <= i < |rows| && !rows[i].published ==> Ours(rows[i].event) && (Decodes(rows[i].event) <==> i != p)
  }

  lemma OnlyPoisonStays(rows: seq<Row>, after: seq<Row>, p: nat)
    requires OnlyPoison(rows, p) && SameEvents(rows, after) && !after[p].published
    requires forall i :: 0 <= i < |rows| && rows[i].published ==> after[i].published
    ensures OnlyPoison(after, p)
  {
  }

  /** The poison is drained exactly when the batch does not pass. */
  lemma PoisonFails(rows: seq<Row>, now: int, limit: nat, p: nat)
    requires OnlyPoison(rows, p)
    ensures TakesPoison(rows, now, limit) <==> Takes(rows, now, limit, p)
  {
    hide Ahead, Keyed;
  }

  // -------------------------------------------------------- while nothing is claimed

  /** With nothing claimed, a step drains the first batch of what is pending. */
  lemma DueTakes(rows: seq<Row>, now: int, limit: nat, i: nat)
    requires Due(rows, now) && i < |rows|
    ensures Takes(rows, now, limit, i) <==> !rows[i].published && Place(rows, i) < Limit(limit)
  {
    AheadCounts(rows, now, i);
    NoneCounted(rows, i, IsHidden(now));
  }

  /** Where the first batch is published, every later place moves up by it. */
  lemma {:induction false} PlaceMoves(rows: seq<Row>, after: seq<Row>, limit: nat, from: nat, i: nat)
    requires i <= |rows| == |after|
    requires forall j :: 0 <= j < i ==>
      after[j].published == (rows[j].published || from <= Place(rows, j) < from + Limit(limit))
    ensures var was := Place(rows, i);
      Place(after, i) ==
        if was <= from then was else if was <= from + Limit(limit) then from else was - Limit(limit)
  {
    if i > 0 {
      PlaceMoves(rows, after, limit, from, i - 1);
    }
  }

  /** The poison further back: the first batch passes, and the rest moves up. */
  lemma PassesBefore(rows: seq<Row>, now: int, later: int, limit: nat, visibility: nat, p: nat)
    requires OnlyPoison(rows, p) && Due(rows, now) && now <= later && Place(rows, p) >= Limit(limit)
    ensures var after := Once(rows, now, limit, visibility);
      && OnlyPoison(after, p) && Due(after, later) && |after| == |rows|
      && forall i :: 0 <= i < |rows| && !rows[i].published ==>
           && after[i].published == (Place(rows, i) < Limit(limit))
           && (Place(rows, i) >= Limit(limit) ==> Place(after, i) == Place(rows, i) - Limit(limit))
  {
    hide Takes, Place;
    var after := Once(rows, now, limit, visibility);
    OnceExactly(rows, now, limit, visibility);
    PoisonFails(rows, now, limit, p);
    forall i | 0 <= i < |rows|
      ensures Takes(rows, now, limit, i) <==> !rows[i].published && Place(rows, i) < Limit(limit)
    {
      DueTakes(rows, now, limit, i);
    }
    hide Once, TakesPoison;
    OnlyPoisonStays(rows, after, p);
    forall i | 0 <= i < |rows| && !rows[i].published && Place(rows, i) >= Limit(limit)
      ensures Place(after, i) == Place(rows, i) - Limit(limit)
    {
      PlaceMoves(rows, after, limit, 0, i);
    }
  }

  // ------------------------------------------------------------ once it is in a batch

  /** The poison's batch is the first of what is pending, under one claim; nothing after it is claimed. */
  ghost predicate Held(rows: seq<Row>, p: nat, limit: nat, now: int, until: int) {
    && OnlyPoison(rows, p) && Place(rows, p) < Limit(limit)
    && forall i :: 0 <= i < |rows| && !rows[i].published ==>
         if Place(rows, i) < Limit(limit) then rows[i].available == until else rows[i].available <= now
  }

  ghost predicate SamePlaces(rows: seq<Row>, after: seq<Row>) {
    |rows| == |after| && forall i :: 0 <= i < |rows| ==>
      after[i].published == rows[i].published && Place(after, i) == Place(rows, i)
  }

  lemma {:induction false} PlacesStay(rows: seq<Row>, after: seq<Row>, i: nat)
    requires i <= |rows| == |after| && forall j :: 0 <= j < i ==> after[j].published == rows[j].published
    ensures Place(after, i) == Place(rows, i)
  {
    if i > 0 {
      PlacesStay(rows, after, i - 1);
    }
  }

  /** A step that drains the batch marks nothing, and claims the batch again. */
  lemma BatchFails(rows: seq<Row>, now: int, later: int, limit: nat, visibility: nat, p: nat)
    requires OnlyPoison(rows, p) && Due(rows, now) && Place(rows, p) < Limit(limit) && now <= later
    ensures var after := Once(rows, now, limit, visibility);
      Held(after, p, limit, later, now + visibility) && SamePlaces(rows, after)
  {
    hide Takes, Place;
    var after := Once(rows, now, limit, visibility);
    OnceExactly(rows, now, limit, visibility);
    PoisonFails(rows, now, limit, p);
    forall i | 0 <= i < |rows|
      ensures Takes(rows, now, limit, i) <==> !rows[i].published && Place(rows, i) < Limit(limit)
    {
      DueTakes(rows, now, limit, i);
    }
    hide Once, TakesPoison;
    OnlyPoisonStays(rows, after, p);
    forall i | 0 <= i < |rows| ensures Place(after, i) == Place(rows, i) {
      PlacesStay(rows, after, i);
    }
  }

  lemma {:induction false} HiddenBatch(rows: seq<Row>, limit: nat, now: int, i: nat)
    requires i <= |rows|
    requires forall j :: 0 <= j < i && !rows[j].published ==>
      (rows[j].available > now <==> Place(rows, j) < Limit(limit))
    ensures Count(rows, i, IsHidden(now)) == if Place(rows, i) < Limit(limit) then Place(rows, i) else Limit(limit)
  {
    if i > 0 {
      HiddenBatch(rows, limit, now, i - 1);
    }
  }

  /** While the batch is claimed, a step drains the next batch after it. */
  lemma HeldTakes(rows: seq<Row>, p: nat, limit: nat, now: int, until: int, i: nat)
    requires Held(rows, p, limit, now, until) && now < until && i < |rows|
    ensures Takes(rows, now, limit, i) <==>
            !rows[i].published && Limit(limit) <= Place(rows, i) < Limit(limit) + Limit(limit)
  {
    AheadCounts(rows, now, i);
    HiddenBatch(rows, limit, now, i);
    hide Count;
  }

  lemma DrainsPast(rows: seq<Row>, now: int, later: int, limit: nat, visibility: nat, p: nat, until: int)
    requires Held(rows, p, limit, now, until) && now < until && now <= later
    ensures var after := Once(rows, now, limit, visibility);
      && Held(after, p, limit, later, until) && |after| == |rows|
      && forall i :: 0 <= i < |rows| && !rows[i].published ==>
           && after[i].published == (Limit(limit) <= Place(rows, i) < Limit(limit) + Limit(limit))
           && (Place(rows, i) >= Limit(limit) + Limit(limit) ==> Place(after, i) == Place(rows, i) - Limit(limit))
  {
    hide Takes, Place;
    var after := Once(rows, now, limit, visibility);
    OnceExactly(rows, now, limit, visibility);
    PoisonFails(rows, now, limit, p);
    forall i | 0 <= i < |rows|
      ensures Takes(rows, now, limit, i) <==>
              !rows[i].published && Limit(limit) <= Place(rows, i) < Limit(limit) + Limit(limit)
    {
      HeldTakes(rows, p, limit, now, until, i);
    }
    hide Once, TakesPoison;
    OnlyPoisonStays(rows, after, p);
    forall i | 0 <= i < |rows|
      ensures var was := Place(rows, i);
        Place(after, i) == if was <= Limit(limit) then was
                           else if was <= Limit(limit) + Limit(limit) then Limit(limit) else was - Limit(limit)
    {
      PlaceMoves(rows, after, limit, Limit(limit), i);
    }
  }

  // ------------------------------------------------------------------------- its fate

  ghost predicate MarkedBy(rows: seq<Row>, times: Clock, k: nat, limit: nat, visibility: nat, i: nat, n: nat) {
    var end := Ran(rows, times, k, limit, visibility, n);
    i < |end| && end[i].published
  }

  lemma MarkedNext(rows: seq<Row>, times: Clock, k: nat, limit: nat, visibility: nat, i: nat, n: nat)
    requires n > 0
    ensures MarkedBy(rows, times, k, limit, visibility, i, n) <==>
            MarkedBy(Once(rows, times(k), limit, visibility), times, k + 1, limit, visibility, i, n - 1)
  {
    hide Once;
  }

  lemma HeldOver(rows: seq<Row>, p: nat, limit: nat, now: int, until: int)
    requires Held(rows, p, limit, now, until) && until <= now
    ensures OnlyPoison(rows, p) && Due(rows, now) && Place(rows, p) < Limit(limit)
  {
    hide Place;
  }

  /**
    What is drained with the poison is never marked; nor is what comes after it, if the batch is
    back by the next step.
   */
  lemma {:induction false} HeldNever(rows: seq<Row>, times: Clock, k: nat, limit: nat, visibility: nat, p: nat,
      until: int, i: nat, n: nat)
    requires Ticks(times) && Held(rows, p, limit, times(k), until) && i < |rows| && !rows[i].published
    requires Place(rows, i) < Limit(limit) || (OverAfter(times, visibility, 1) && until <= times(k))
    ensures !MarkedBy(rows, times, k, limit, visibility, i, n)
    decreases n
  {
    hide Held, Place, Once, Due, OnlyPoison;
    if n > 0 {
      MarkedNext(rows, times, k, limit, visibility, i, n);
      assert times(k) < times(k + 1);
      var after := Once(rows, times(k), limit, visibility);
      if until <= times(k) {
        HeldOver(rows, p, limit, times(k), until);
        BatchFails(rows, times(k), times(k + 1), limit, visibility, p);
        if OverAfter(times, visibility, 1) {
          assert visibility <= times(k + 1) - times(k);
        }
        HeldNever(after, times, k + 1, limit, visibility, p, times(k) + visibility, i, n - 1);
      } else {
        DrainsPast(rows, times(k), times(k + 1), limit, visibility, p, until);
        PlaceInBatch(rows, after, p, limit, times(k), times(k + 1), until, visibility, i);
        HeldNever(after, times, k + 1, limit, visibility, p, until, i, n - 1);
      }
    }
  }

  /** Draining past the batch leaves its places as they are. */
  lemma PlaceInBatch(rows: seq<Row>, after: seq<Row>, p: nat, limit: nat, now: int, later: int, until: int,
      visibility: nat, i: nat)
    requires Held(rows, p, limit, now, until) && now < until && now <= later
    requires after == Once(rows, now, limit, visibility) && i < |rows| && !rows[i].published
    requires Place(rows, i) < Limit(limit)
    ensures |after| == |rows| && !after[i].published && Place(after, i) == Place(rows, i)
  {
    DrainsPast(rows, now, later, limit, visibility, p, until);
    OnceExactly(rows, now, limit, visibility);
    hide Once, Place, Takes, Held;
    forall j | 0 <= j < i ensures after[j].published == rows[j].published {
      if !rows[j].published {
        CountUpTo(rows, j, i, IsPending());
        PlaceIs(rows, j);
        PlaceIs(rows, i);
      }
    }
    PlacesStay(rows, after, i);
  }

  lemma PlaceIs(rows: seq<Row>, i: nat)
    requires i <= |rows|
    ensures Place(rows, i) == Count(rows, i, IsPending())
  {
  }

  /** What comes after the batch is drained past it, while the claim is held at the next step. */
  lemma {:induction false} HeldPasses(rows: seq<Row>, times: Clock, k: nat, limit: nat, visibility: nat, p: nat,
      until: int, i: nat) returns (n: nat)
    requires Ticks(times) && HeldFor(times, visibility, 2) && Held(rows, p, limit, times(k), until)
    requires i < |rows| && !rows[i].published && Place(rows, i) >= Limit(limit)
    ensures MarkedBy(rows, times, k, limit, visibility, i, n)
    decreases Place(rows, i), if until <= times(k) then 1 else 0
  {
    hide Held, Place, Once, Due, OnlyPoison;
    assert times(k) < times(k + 1) && times(k + 2 - 1) - times(k) < visibility;
    var after := Once(rows, times(k), limit, visibility);
    if until <= times(k) {
      HeldOver(rows, p, limit, times(k), until);
      BatchFails(rows, times(k), times(k + 1), limit, visibility, p);
      var m := HeldPasses(after, times, k + 1, limit, visibility, p, times(k) + visibility, i);
      n := m + 1;
    } else {
      DrainsPast(rows, times(k), times(k + 1), limit, visibility, p, until);
      if after[i].published {
        n := 1;
        assert Ran(after, times, k + 1, limit, visibility, 0) == after;
      } else {
        var m := HeldPasses(after, times, k + 1, limit, visibility, p, until, i);
        n := m + 1;
      }
    }
    MarkedNext(rows, times, k, limit, visibility, i, n);
  }

  /** The batch a place falls in when what is pending is cut into batches. */
  function BatchAt(place: nat, limit: nat): nat {
    if place < Limit(limit) then 0 else 1 + BatchAt(place - Limit(limit), limit)
  }

  ghost function Batch(rows: seq<Row>, i: nat, limit: nat): nat
    requires i <= |rows|
  {
    BatchAt(Place(rows, i), limit)
  }

  /**
    Whether an event reaches the sinks, by the batch it falls in and whether the next step finds the
    poison's batch held.
   */
  ghost predicate Passes(rows: seq<Row>, i: nat, p: nat, limit: nat, held: bool)
    requires i <= |rows| && p <= |rows|
  {
    if held then Batch(rows, i, limit) != Batch(rows, p, limit) else Batch(rows, i, limit) < Batch(rows, p, limit)
  }

  lemma {:induction false} PoisonNever(rows: seq<Row>, times: Clock, k: nat, limit: nat, visibility: nat, p: nat,
      held: bool, i: nat, n: nat)
    requires Ticks(times) && OnlyPoison(rows, p) && Due(rows, times(k)) && i < |rows| && !rows[i].published
    requires !Passes(rows, i, p, limit, held) && (!held ==> OverAfter(times, visibility, 1))
    ensures !MarkedBy(rows, times, k, limit, visibility, i, n)
    decreases n
  {
    hide Held, Place, Once, Due, OnlyPoison, Ticks;
    if n > 0 {
      MarkedNext(rows, times, k, limit, visibility, i, n);
      TicksOn(times, k, k + 1);
      PoisonIs(rows, p);
      var after := Once(rows, times(k), limit, visibility);
      if Place(rows, p) >= Limit(limit) {
        PassesBefore(rows, times(k), times(k + 1), limit, visibility, p);
        PoisonNever(after, times, k + 1, limit, visibility, p, held, i, n - 1);
      } else {
        BatchFails(rows, times(k), times(k + 1), limit, visibility, p);
        if !held {
          assert visibility <= times(k + 1) - times(k);
        }
        HeldNever(after, times, k + 1, limit, visibility, p, times(k) + visibility, i, n - 1);
      }
    }
  }

  lemma PoisonIs(rows: seq<Row>, p: nat)
    requires OnlyPoison(rows, p)
    ensures p < |rows| && !rows[p].published
  {
  }

  lemma {:induction false} PoisonPassed(rows: seq<Row>, times: Clock, k: nat, limit: nat, visibility: nat, p: nat,
      held: bool, i: nat) returns (n: nat)
    requires Ticks(times) && OnlyPoison(rows, p) && Due(rows, times(k)) && i < |rows| && !rows[i].published
    requires Passes(rows, i, p, limit, held) && (held ==> HeldFor(times, visibility, 2))
    ensures MarkedBy(rows, times, k, limit, visibility, i, n)
    decreases Place(rows, i)
  {
    hide Held, Place, Once, Due, OnlyPoison, Ticks;
    TicksOn(times, k, k + 1);
    PoisonIs(rows, p);
    var after := Once(rows, times(k), limit, visibility);
    if Place(rows, p) >= Limit(limit) {
      PassesBefore(rows, times(k), times(k + 1), limit, visibility, p);
      if after[i].published {
        n := 1;
        assert Ran(after, times, k + 1, limit, visibility, 0) == after;
      } else {
        var m := PoisonPassed(after, times, k + 1, limit, visibility, p, held, i);
        n := m + 1;
      }
    } else {
      BatchFails(rows, times(k), times(k + 1), limit, visibility, p);
      var m := HeldPasses(after, times, k + 1, limit, visibility, p, times(k) + visibility, i);
      n := m + 1;
    }
    MarkedNext(rows, times, k, limit, visibility, i, n);
  }

  /**
    One event of ours that does not decode among events of ours that do, nothing else failing and
    the pending events cut into batches as they are drained. On a schedule on which the next step
    still finds a claim held, an event arrives exactly when it is not in the batch of the one that
    does not decode; on one on which it does not, exactly when its batch comes before that one.
   */
  lemma PoisonHoldsItsBatch(rows: seq<Row>, times: Clock, limit: nat, visibility: nat, w: nat, p: nat, i: nat)
    requires OnlyPoison(rows, p) && Due(rows, times(0)) && Ticks(times)
    requires HeldFor(times, visibility, w) && OverAfter(times, visibility, w)
    requires i < |rows| && !rows[i].published
    ensures Arrives(rows, times, limit, visibility, i) <==> Passes(rows, i, p, limit, w > 1)
  {
    hide Place, Once, Due, OnlyPoison, Ticks, Passes;
    PoisonIs(rows, p);
    if w > 1 {
      forall k: nat ensures times(k + 2 - 1) - times(k) < visibility {
        assert times(k + w - 1) - times(k) < visibility;
        TicksOn(times, k + 1, k + w - 1);
      }
    }
    if Passes(rows, i, p, limit, w > 1) {
      var n := PoisonPassed(rows, times, 0, limit, visibility, p, w > 1, i);
      assert ArrivedBy(rows, times, limit, visibility, i, n);
    } else {
      forall n: nat ensures !ArrivedBy(rows, times, limit, visibility, i, n) {
        PoisonNever(rows, times, 0, limit, visibility, p, w > 1, i, n);
      }
    }
  }

  /** An event after one that does not decode: stranded with it in one batch, drained past it one at a time. */
  lemma StrandedWithPoison(change: Change, limit: nat, visibility: nat, gap: nat)
    requires visibility > 0 && gap > 0
    ensures var rows := [Row(Event(1, EVENT_KIND, None, 0), 0, false),
                         Row(Event(2, EVENT_KIND, Some(change), 0), 0, false)];
      Arrives(rows, Every(0, gap), limit, visibility, 1) <==> limit == 1 && gap < visibility
  {
    var rows := [Row(Event(1, EVENT_KIND, None, 0), 0, false),
                 Row(Event(2, EVENT_KIND, Some(change), 0), 0, false)];
    var w := (visibility + gap - 1) / gap;
    RegularSteps(0, gap, visibility, w);
    StepsHeld(visibility, gap, w);
    assert Place(rows, 0) == 0 && Place(rows, 1) == 1;
    PoisonHoldsItsBatch(rows, Every(0, gap), limit, visibility, w, 0, 1);
  }
}
