/**
  Which events ever arrive. A pump steps at certain times; a claim hides its rows for the
  visibility timeout, so the steps made meanwhile drain past them.
 */
module MirrorSchedule {
  import opened Wrappers
  import opened MirrorVersions
  import opened MirrorOutbox
  import opened MirrorArrival

  // ------------------------------------------------------------------------ counting

  /** How many of the rows before the i-th have the property. */
  ghost function Count(rows: seq<Row>, i: nat, p: Row -> bool): nat
    requires i <= |rows|
  {
    if i == 0 then 0 else Count(rows, i - 1, p) + if p(rows[i - 1]) then 1 else 0
  }

  function IsPending(): Row -> bool {
    (r: Row) => !r.published
  }

  function IsForeign(): Row -> bool {
    (r: Row) => !r.published && !Ours(r.event)
  }

  function IsMine(): Row -> bool {
    (r: Row) => !r.published && Ours(r.event)
  }

  function IsClaimable(now: int): Row -> bool {
    (r: Row) => Claimable(r, now)
  }

  /** Claimed until after this time. */
  function IsHidden(now: int): Row -> bool {
    (r: Row) => !r.published && r.available > now
  }

  lemma {:induction false} CountAtMost(rows: seq<Row>, after: seq<Row>, i: nat, p: Row -> bool, q: Row -> bool)
    requires i <= |rows| == |after| && forall j :: 0 <= j < i && p(rows[j]) ==> q(after[j])
    ensures Count(rows, i, p) <= Count(after, i, q)
  {
    if i > 0 {
      CountAtMost(rows, after, i - 1, p, q);
    }
  }

  lemma {:induction false} CountFewer(rows: seq<Row>, after: seq<Row>, i: nat, p: Row -> bool, k: nat)
    requires k < i <= |rows| == |after| && forall j :: 0 <= j < i && p(after[j]) ==> p(rows[j])
    requires p(rows[k]) && !p(after[k])
    ensures Count(after, i, p) < Count(rows, i, p)
  {
    if k == i - 1 {
      CountAtMost(after, rows, i - 1, p, p);
    } else {
      CountFewer(rows, after, i - 1, p, k);
    }
  }

  lemma {:induction false} CountUpTo(rows: seq<Row>, i: nat, k: nat, p: Row -> bool)
    requires i <= k <= |rows|
    ensures Count(rows, i, p) <= Count(rows, k, p)
  {
    if i < k {
      CountUpTo(rows, i, k - 1, p);
    }
  }

  lemma {:induction false} AheadCounts(rows: seq<Row>, now: int, i: nat)
    requires i <= |rows|
    ensures Ahead(rows, now, i) == Count(rows, i, IsClaimable(now))
    ensures Count(rows, i, IsPending()) == Count(rows, i, IsClaimable(now)) + Count(rows, i, IsHidden(now))
  {
    if i > 0 {
      AheadCounts(rows, now, i - 1);
      assert rows[..i][..i - 1] == rows[..i - 1];
    }
  }

  /** The first of ours that is pending has none of ours ahead of it. */
  lemma {:induction false} FirstMine(rows: seq<Row>, i: nat) returns (j: nat)
    requires i < |rows| && IsMine()(rows[i])
    ensures j <= i && IsMine()(rows[j]) && Count(rows, j, IsMine()) == 0
  {
    if Count(rows, i, IsMine()) == 0 {
      j := i;
    } else {
      j := SomeCounted(rows, i, IsMine());
      j := FirstMine(rows, j);
    }
  }

  lemma {:induction false} SomeCounted(rows: seq<Row>, i: nat, p: Row -> bool) returns (j: nat)
    requires i <= |rows| && Count(rows, i, p) > 0
    ensures j < i && p(rows[j])
  {
    if p(rows[i - 1]) {
      j := i - 1;
    } else {
      j := SomeCounted(rows, i - 1, p);
    }
  }

  // ------------------------------------------------------------------------ one step

  /** A step whose sinks and commit do not fail. */
  ghost function Once(rows: seq<Row>, now: int, limit: nat, visibility: nat): seq<Row> {
    var events := Claim(rows, now, limit);
    Stepped(rows, events, now + visibility, AllDecode(events))
  }

  /** The step drains this row. */
  ghost predicate Takes(rows: seq<Row>, now: int, limit: nat, i: nat)
    requires i < |rows|
  {
    Claimable(rows[i], now) && Ahead(rows, now, i) < Limit(limit)
  }

  ghost function Taken(rows: seq<Row>, now: int, limit: nat, i: nat): nat
    requires i <= |rows|
  {
    if i == 0 then 0 else Taken(rows, now, limit, i - 1) + if Takes(rows, now, limit, i - 1) then 1 else 0
  }

  /** A drain takes what is claimable, up to the limit. */
  lemma {:induction false} TakenCounts(rows: seq<Row>, now: int, limit: nat, i: nat)
    requires i <= |rows|
    ensures Taken(rows, now, limit, i) ==
            if Ahead(rows, now, i) < Limit(limit) then Ahead(rows, now, i) else Limit(limit)
  {
    if i > 0 {
      TakenCounts(rows, now, limit, i - 1);
      assert rows[..i][..i - 1] == rows[..i - 1];
    }
  }

  ghost predicate StepEffect(rows: seq<Row>, after: seq<Row>, now: int, limit: nat, visibility: nat, decodes: bool) {
    && SameEvents(rows, after)
    && (forall i :: 0 <= i < |rows| ==>
          after[i].published == (rows[i].published || (decodes && Takes(rows, now, limit, i) && Ours(rows[i].event))))
    && (forall i :: 0 <= i < |rows| ==>
          after[i].available == if Takes(rows, now, limit, i) then now + visibility else rows[i].available)
  }

  ghost predicate TakesPoison(rows: seq<Row>, now: int, limit: nat) {
    exists i :: 0 <= i < |rows| && Takes(rows, now, limit, i) && Ours(rows[i].event) && !Decodes(rows[i].event)
  }

  lemma OnceRow(rows: seq<Row>, now: int, limit: nat, visibility: nat, i: nat)
    requires Keyed(rows) && i < |rows|
    ensures var (after, decodes) := (Once(rows, now, limit, visibility), AllDecode(Claim(rows, now, limit)));
      && |after| == |rows| && after[i].event == rows[i].event
      && after[i].published == (rows[i].published || (decodes && Takes(rows, now, limit, i) && Ours(rows[i].event)))
      && after[i].available == if Takes(rows, now, limit, i) then now + visibility else rows[i].available
  {
    hide Claim, Stepped, Ahead, AllDecode, Ids, Keyed;
    SteppedExactly(rows, now, limit, now + visibility, AllDecode(Claim(rows, now, limit)), i);
    ClaimedExactly(rows, now, limit, i);
  }

  lemma DecodesIff(rows: seq<Row>, now: int, limit: nat)
    requires Keyed(rows)
    ensures AllDecode(Claim(rows, now, limit)) <==> !TakesPoison(rows, now, limit)
  {
    ClaimedAreRows(rows, now, limit);
    hide Ahead;
    if TakesPoison(rows, now, limit) {
      var i :| 0 <= i < |rows| && Takes(rows, now, limit, i) && Ours(rows[i].event) && !Decodes(rows[i].event);
      AvailableAt(rows, now, i);
      assert Claim(rows, now, limit)[Ahead(rows, now, i)] == rows[i].event;
    }
    hide Claim;
    if !AllDecode(Claim(rows, now, limit)) {
      var e :| e in Claim(rows, now, limit) && Ours(e) && !Decodes(e);
      var i :| 0 <= i < |rows| && rows[i].event == e;
      ClaimedExactly(rows, now, limit, i);
    }
  }

  /** What one step does, row by row. */
  lemma OnceExactly(rows: seq<Row>, now: int, limit: nat, visibility: nat)
    requires Keyed(rows)
    ensures var after := Once(rows, now, limit, visibility);
      Keyed(after) && StepEffect(rows, after, now, limit, visibility, !TakesPoison(rows, now, limit))
  {
    hide Once, Claim, AllDecode, Takes, TakesPoison;
    var after := Once(rows, now, limit, visibility);
    DecodesIff(rows, now, limit);
    OnceLength(rows, now, limit, visibility);
    forall i | 0 <= i < |rows|
      ensures after[i].event == rows[i].event
      ensures after[i].published ==
        (rows[i].published || (!TakesPoison(rows, now, limit) && Takes(rows, now, limit, i) && Ours(rows[i].event)))
      ensures after[i].available == if Takes(rows, now, limit, i) then now + visibility else rows[i].available
    {
      OnceRow(rows, now, limit, visibility, i);
    }
  }

  lemma OnceLength(rows: seq<Row>, now: int, limit: nat, visibility: nat)
    ensures |Once(rows, now, limit, visibility)| == |rows|
  {
  }

  /** What is hidden after a step was hidden before, or the step took it. */
  lemma {:induction false} RisesAtMost(rows: seq<Row>, after: seq<Row>, now: int, limit: nat, i: nat, p: Row -> bool,
      q: Row -> bool)
    requires i <= |rows| == |after|
    requires forall j :: 0 <= j < i && q(after[j]) ==> Takes(rows, now, limit, j) || p(rows[j])
    ensures Count(after, i, q) <= Count(rows, i, p) + Taken(rows, now, limit, i)
  {
    hide Takes;
    if i > 0 {
      RisesAtMost(rows, after, now, limit, i - 1, p, q);
    }
  }

  /** Where nothing counted is taken and everything taken counts afterwards, the count rises by all that was taken. */
  lemma {:induction false} RisesByTaken(rows: seq<Row>, after: seq<Row>, now: int, limit: nat, i: nat, p: Row -> bool)
    requires i <= |rows| == |after|
    requires forall j :: 0 <= j < i && p(rows[j]) ==> p(after[j]) && !Takes(rows, now, limit, j)
    requires forall j :: 0 <= j < i && Takes(rows, now, limit, j) ==> p(after[j])
    ensures Count(after, i, p) >= Count(rows, i, p) + Taken(rows, now, limit, i)
  {
    hide Takes;
    if i > 0 {
      RisesByTaken(rows, after, now, limit, i - 1, p);
    }
  }

  // --------------------------------------------------------------------- the schedule

  /** When the k-th step is made. */
  type Clock = nat -> int

  ghost predicate Ticks(times: Clock) {
    forall k: nat :: times(k) < times(k + 1)
  }

  lemma {:induction false} TicksOn(times: Clock, j: nat, k: nat)
    requires Ticks(times) && j <= k
    ensures times(j) <= times(k) && (j < k ==> times(j) < times(k))
    decreases k
  {
    if j < k {
      TicksOn(times, j, k - 1);
      assert times(k - 1) < times(k - 1 + 1);
    }
  }

  /** A claim is still held w - 1 steps later. */
  ghost predicate HeldFor(times: Clock, visibility: nat, w: nat) {
    w > 0 && forall k: nat :: times(k + w - 1) - times(k) < visibility
  }

  /** And it is over w steps later. */
  ghost predicate OverAfter(times: Clock, visibility: nat, w: nat) {
    w > 0 && forall k: nat :: visibility <= times(k + w) - times(k)
  }

  /** The table after n steps, the first of them the k-th of the schedule. */
  ghost function Ran(rows: seq<Row>, times: Clock, k: nat, limit: nat, visibility: nat, n: nat): seq<Row>
    decreases n
  {
    if n == 0 then rows
    else Ran(Once(rows, times(k), limit, visibility), times, k + 1, limit, visibility, n - 1)
  }

  lemma {:induction false} RanThen(rows: seq<Row>, times: Clock, k: nat, limit: nat, visibility: nat, n: nat, m: nat)
    ensures Ran(Ran(rows, times, k, limit, visibility, n), times, k + n, limit, visibility, m) ==
            Ran(rows, times, k, limit, visibility, n + m)
    decreases n
  {
    hide Once;
    if n > 0 {
      RanThen(Once(rows, times(k), limit, visibility), times, k + 1, limit, visibility, n - 1, m);
    }
  }

  ghost predicate Arrives(rows: seq<Row>, times: Clock, limit: nat, visibility: nat, i: nat) {
    exists n: nat :: ArrivedBy(rows, times, limit, visibility, i, n)
  }

  ghost predicate ArrivedBy(rows: seq<Row>, times: Clock, limit: nat, visibility: nat, i: nat, n: nat) {
    var end := Ran(rows, times, 0, limit, visibility, n);
    i < |end| && end[i].published
  }

  /** No pending row is under a claim. */
  ghost predicate Due(rows: seq<Row>, now: int) {
    forall i :: 0 <= i < |rows| && !rows[i].published ==> rows[i].available <= now
  }

  ghost predicate AllOursDecode(rows: seq<Row>) {
    forall i :: 0 <= i < |rows| && Ours(rows[i].event) ==> Decodes(rows[i].event)
  }

  /** Before a step: what is ours and pending is claimable, and no claim was made as late as now. */
  ghost predicate Ready(rows: seq<Row>, now: int, visibility: nat) {
    && Keyed(rows) && AllOursDecode(rows)
    && forall i :: 0 <= i < |rows| && !rows[i].published ==>
         rows[i].available < now + visibility && (Ours(rows[i].event) ==> rows[i].available <= now)
  }

  lemma StaysReady(rows: seq<Row>, now: int, later: int, limit: nat, visibility: nat)
    requires Ready(rows, now, visibility) && now < later
    ensures var after := Once(rows, now, limit, visibility);
      Ready(after, later, visibility) && StepEffect(rows, after, now, limit, visibility, true)
  {
    OnceExactly(rows, now, limit, visibility);
    hide Once, Takes, Keyed;
    assert !TakesPoison(rows, now, limit);
  }

  // ----------------------------------------------------------------------- it arrives

  lemma {:induction false} NoneCounted(rows: seq<Row>, i: nat, p: Row -> bool)
    requires i <= |rows|
    ensures Count(rows, i, p) == 0 <==> forall j :: 0 <= j < i ==> !p(rows[j])
  {
    if i > 0 {
      NoneCounted(rows, i - 1, p);
    }
  }

  /** With none of ours before it, all that is hidden before it is foreign. */
  lemma HiddenAreForeign(rows: seq<Row>, e: nat, now: int)
    requires e <= |rows| && Count(rows, e, IsMine()) == 0
    ensures Count(rows, e, IsHidden(now)) <= Count(rows, e, IsForeign())
  {
    NoneCounted(rows, e, IsMine());
    CountAtMost(rows, rows, e, IsHidden(now), IsForeign());
  }

  /** Steps only ever publish, and only what is ours. */
  ghost predicate Progress(rows: seq<Row>, after: seq<Row>) {
    && SameEvents(rows, after)
    && (forall x :: 0 <= x < |rows| && rows[x].published ==> after[x].published)
    && (forall x :: 0 <= x < |rows| && !Ours(rows[x].event) ==> after[x].published == rows[x].published)
  }

  lemma ForeignStay(rows: seq<Row>, after: seq<Row>, i: nat)
    requires Progress(rows, after) && i <= |rows|
    ensures Count(after, i, IsForeign()) == Count(rows, i, IsForeign())
    ensures Count(after, i, IsMine()) <= Count(rows, i, IsMine())
  {
    CountAtMost(rows, after, i, IsForeign(), IsForeign());
    CountAtMost(after, rows, i, IsForeign(), IsForeign());
    CountAtMost(after, rows, i, IsMine(), IsMine());
  }

  /** One step of the window that does not reach e hides a full batch more before it. */
  lemma WindowStep(rows: seq<Row>, now: int, until: int, limit: nat, visibility: nat, e: nat, after: seq<Row>)
    requires Ready(rows, now, visibility) && StepEffect(rows, after, now, limit, visibility, true)
    requires e < |rows| && Ours(rows[e].event) && !rows[e].published && Count(rows, e, IsMine()) == 0
    requires now <= until < now + visibility && !after[e].published
    ensures Count(after, e, IsHidden(until)) >= Count(rows, e, IsHidden(until)) + Limit(limit)
  {
    hide Ahead, Keyed;
    assert !Takes(rows, now, limit, e);
    TakenCounts(rows, now, limit, e);
    NoneCounted(rows, e, IsMine());
    forall x | 0 <= x < e && Takes(rows, now, limit, x) ensures IsHidden(until)(after[x]) {
      assert !IsMine()(rows[x]);
    }
    forall x | 0 <= x < e && IsHidden(until)(rows[x]) ensures IsHidden(until)(after[x]) && !Takes(rows, now, limit, x) {
      assert !IsMine()(rows[x]);
    }
    hide Takes, StepEffect;
    RisesByTaken(rows, after, now, limit, e, IsHidden(until));
  }

  /** What w full drains take. */
  ghost function Batches(limit: nat, w: nat): nat {
    if w == 0 then 0 else Batches(limit, w - 1) + Limit(limit)
  }

  lemma {:induction false} BatchesAre(limit: nat, w: nat)
    ensures Batches(limit, w) == Limit(limit) * w
  {
    if w > 0 {
      BatchesAre(limit, w - 1);
    }
  }

  /** Where the rows before e that are ours are gone, a window of w steps is enough to drain it. */
  lemma {:induction false} WindowReaches(rows: seq<Row>, times: Clock, since: nat, j: nat, limit: nat, visibility: nat,
      w: nat, e: nat) returns (n: nat)
    requires Ticks(times) && HeldFor(times, visibility, w) && j <= w
    requires Ready(rows, times(since + j), visibility) && e < |rows| && Ours(rows[e].event)
    requires Count(rows, e, IsMine()) == 0
    requires Count(rows, e, IsForeign()) <
             Count(rows, e, IsHidden(times(since) + visibility - 1)) + Batches(limit, w - j)
    ensures n <= w - j
    ensures var end := Ran(rows, times, since + j, limit, visibility, n);
      Ready(end, times(since + j + n), visibility) && Progress(rows, end) && end[e].published
    decreases w - j
  {
    hide Ready, Count, StepEffect, Once, Ticks, HeldFor, Progress, SameEvents;
    HiddenAreForeign(rows, e, times(since) + visibility - 1);
    if rows[e].published {
      n := 0;
      NoProgress(rows);
    } else {
      var k := since + j;
      var after := Once(rows, times(k), limit, visibility);
      WindowTime(times, visibility, w, since, j);
      StaysReady(rows, times(k), times(k + 1), limit, visibility);
      EffectProgress(rows, after, times(k), limit, visibility);
      ForeignStay(rows, after, e);
      ProgressAt(rows, after, e);
      if after[e].published {
        n := 1;
        assert Ran(after, times, k + 1, limit, visibility, 0) == after;
      } else {
        WindowStep(rows, times(k), times(since) + visibility - 1, limit, visibility, e, after);
        var m := WindowReaches(after, times, since, j + 1, limit, visibility, w, e);
        n := m + 1;
        ProgressThen(rows, after, Ran(after, times, k + 1, limit, visibility, m));
      }
    }
  }

  lemma NoProgress(rows: seq<Row>)
    ensures Progress(rows, rows)
  {
  }

  lemma ProgressAt(rows: seq<Row>, after: seq<Row>, e: nat)
    requires Progress(rows, after) && e < |rows|
    ensures |after| == |rows| && after[e].event == rows[e].event
  {
  }

  lemma ProgressThen(a: seq<Row>, b: seq<Row>, c: seq<Row>)
    requires Progress(a, b) && Progress(b, c)
    ensures Progress(a, c)
  {
  }

  /** Within the window, claims made at its start are still held. */
  lemma WindowTime(times: Clock, visibility: nat, w: nat, since: nat, j: nat)
    requires Ticks(times) && HeldFor(times, visibility, w) && j < w
    ensures times(since + j) < times(since + j + 1)
    ensures times(since + j) <= times(since) + visibility - 1 < times(since + j) + visibility
  {
    TicksOn(times, since, since + j);
    TicksOn(times, since + j, since + w - 1);
    assert times(since + w - 1) - times(since) < visibility;
  }

  lemma EffectProgress(rows: seq<Row>, after: seq<Row>, now: int, limit: nat, visibility: nat)
    requires StepEffect(rows, after, now, limit, visibility, true)
    ensures Progress(rows, after)
  {
    hide Takes;
  }

  lemma ReadyHidesNothing(rows: seq<Row>, now: int, visibility: nat, e: nat)
    requires Ready(rows, now, visibility) && e <= |rows|
    ensures Count(rows, e, IsHidden(now + visibility - 1)) == 0
  {
    NoneCounted(rows, e, IsHidden(now + visibility - 1));
  }

  /** Each window marks the first of ours that is pending, until it is the one that is waited for. */
  lemma {:induction false} EventArrives(rows: seq<Row>, times: Clock, k: nat, limit: nat, visibility: nat, w: nat,
      i: nat)
    returns (n: nat)
    requires Ticks(times) && HeldFor(times, visibility, w) && Ready(rows, times(k), visibility)
    requires i < |rows| && Ours(rows[i].event) && Count(rows, i, IsForeign()) < Batches(limit, w)
    ensures n <= w * (Count(rows, i, IsMine()) + 1)
    ensures var end := Ran(rows, times, k, limit, visibility, n); i < |end| && end[i].published
    decreases Count(rows, i, IsMine()), if rows[i].published then 0 else 1
  {
    hide Ready, Count, Once, Ticks, HeldFor;
    if rows[i].published {
      n := 0;
    } else {
      var e := FirstMine(rows, i);
      CountUpTo(rows, e, i, IsForeign());
      ReadyHidesNothing(rows, times(k), visibility, e);
      var a := WindowReaches(rows, times, k, 0, limit, visibility, w, e);
      var end := Ran(rows, times, k, limit, visibility, a);
      ForeignStay(rows, end, i);
      if e == i {
        n := a;
        assert w * (Count(rows, i, IsMine()) + 1) == w * Count(rows, i, IsMine()) + w;
      } else {
        CountFewer(rows, end, i, IsMine(), e);
        var b := EventArrives(end, times, k + a, limit, visibility, w, i);
        RanThen(rows, times, k, limit, visibility, a, b);
        n := a + b;
        Windows(w, Count(end, i, IsMine()), Count(rows, i, IsMine()));
      }
    }
  }

  lemma {:induction false} MoreTimes(w: nat, a: nat, b: nat)
    requires a <= b
    ensures w * a <= w * b
    decreases b
  {
    if a < b {
      MoreTimes(w, a, b - 1);
      assert w * b == w * (b - 1) + w;
    }
  }

  lemma Windows(w: nat, fewer: nat, more: nat)
    requires fewer < more
    ensures w + w * (fewer + 1) <= w * (more + 1)
  {
    MoreTimes(w, fewer + 2, more + 1);
    assert w * (fewer + 2) == w + w * (fewer + 1);
  }

  // ----------------------------------------------------------------- it never arrives

  /** The latest time a claim made before the last m steps reaches to, if that is after now. */
  function Bar(times: Clock, k: nat, m: nat, visibility: nat): int {
    if m < k && times(k - 1 - m) + visibility > times(k) then times(k - 1 - m) + visibility else times(k)
  }

  /** The last m steps hide no more than m batches. */
  ghost predicate Bounded(rows: seq<Row>, times: Clock, k: nat, limit: nat, visibility: nat, i: nat)
    requires i <= |rows|
  {
    forall m: nat :: Count(rows, i, IsHidden(Bar(times, k, m, visibility))) <= Batches(limit, m)
  }

  lemma StaysBounded(rows: seq<Row>, after: seq<Row>, times: Clock, k: nat, limit: nat, visibility: nat, i: nat,
      decodes: bool)
    requires Ticks(times) && i <= |rows| && Bounded(rows, times, k, limit, visibility, i)
    requires StepEffect(rows, after, times(k), limit, visibility, decodes)
    ensures Bounded(after, times, k + 1, limit, visibility, i)
  {
    TakenCounts(rows, times(k), limit, i);
    hide Takes, Count, Ahead;
    forall m: nat ensures Count(after, i, IsHidden(Bar(times, k + 1, m, visibility))) <= Batches(limit, m) {
      assert times(k) < times(k + 1);
      if m == 0 {
        if k > 0 {
          assert times(k - 1) < times(k - 1 + 1);
        }
        assert Count(rows, i, IsHidden(Bar(times, k, 0, visibility))) <= Batches(limit, 0);
        CountAtMost(after, rows, i, IsHidden(Bar(times, k + 1, 0, visibility)), IsHidden(Bar(times, k, 0, visibility)));
      } else {
        var (q, p) := (IsHidden(Bar(times, k + 1, m, visibility)), IsHidden(Bar(times, k, m - 1, visibility)));
        assert Count(rows, i, p) <= Batches(limit, m - 1);
        RisesAtMost(rows, after, times(k), limit, i, p, q);
      }
    }
  }

  lemma DueIsBounded(rows: seq<Row>, times: Clock, limit: nat, visibility: nat, i: nat)
    requires Due(rows, times(0)) && i <= |rows|
    ensures Bounded(rows, times, 0, limit, visibility, i)
  {
    forall m: nat ensures Count(rows, i, IsHidden(Bar(times, 0, m, visibility))) <= Batches(limit, m) {
      NoneCounted(rows, i, IsHidden(Bar(times, 0, m, visibility)));
    }
  }

  /** Where w batches of foreign events are pending before it, a full batch of them is always claimable. */
  lemma OutOfReach(rows: seq<Row>, times: Clock, k: nat, limit: nat, visibility: nat, w: nat, i: nat)
    requires OverAfter(times, visibility, w) && i < |rows| && Bounded(rows, times, k, limit, visibility, i)
    requires Count(rows, i, IsForeign()) >= Batches(limit, w)
    ensures !Takes(rows, times(k), limit, i)
  {
    assert Count(rows, i, IsHidden(Bar(times, k, w - 1, visibility))) <= Batches(limit, w - 1);
    assert Bar(times, k, w - 1, visibility) == times(k) by {
      if w - 1 < k {
        assert visibility <= times(k - w + w) - times(k - w);
      }
    }
    AheadCounts(rows, times(k), i);
    CountAtMost(rows, rows, i, IsForeign(), IsPending());
  }

  lemma {:induction false} EventStarves(rows: seq<Row>, times: Clock, k: nat, limit: nat, visibility: nat, w: nat,
      i: nat, n: nat)
    requires Ticks(times) && OverAfter(times, visibility, w) && Keyed(rows)
    requires i < |rows| && !rows[i].published && Bounded(rows, times, k, limit, visibility, i)
    requires Count(rows, i, IsForeign()) >= Batches(limit, w)
    ensures var end := Ran(rows, times, k, limit, visibility, n); |end| == |rows| && !end[i].published
    decreases n
  {
    hide Once, Ticks, OverAfter, Keyed, Bounded, Count, Takes;
    if n > 0 {
      var after := Once(rows, times(k), limit, visibility);
      var decodes := !TakesPoison(rows, times(k), limit);
      OnceExactly(rows, times(k), limit, visibility);
      OutOfReach(rows, times, k, limit, visibility, w, i);
      StaysBounded(rows, after, times, k, limit, visibility, i, decodes);
      hide TakesPoison;
      CountAtMost(rows, after, i, IsForeign(), IsForeign());
      EventStarves(after, times, k + 1, limit, visibility, w, i, n - 1);
    }
  }

  // ------------------------------------------------------------------ and exactly when

  /** Steps brisk enough for w of them to fall within a claim: fewer foreign events than they drain hold nothing up. */
  lemma ArrivesWhenBrisk(rows: seq<Row>, times: Clock, limit: nat, visibility: nat, w: nat, i: nat)
    requires Keyed(rows) && Due(rows, times(0)) && AllOursDecode(rows) && Ticks(times) && HeldFor(times, visibility, w)
    requires i < |rows| && Ours(rows[i].event) && Count(rows, i, IsForeign()) < Limit(limit) * w
    ensures Arrives(rows, times, limit, visibility, i)
  {
    hide Keyed, Ticks, Count;
    BatchesAre(limit, w);
    assert times(0 + w - 1) - times(0) < visibility;
    TicksOn(times, 0, w - 1);
    var n := EventArrives(rows, times, 0, limit, visibility, w, i);
    assert ArrivedBy(rows, times, limit, visibility, i, n);
  }

  /**
    Steps slow enough for a claim to be over w of them later: as many foreign events as those drain
    hold it up for ever.
   */
  lemma StarvesWhenSlow(rows: seq<Row>, times: Clock, limit: nat, visibility: nat, w: nat, i: nat)
    requires Keyed(rows) && Due(rows, times(0)) && Ticks(times) && OverAfter(times, visibility, w)
    requires i < |rows| && !rows[i].published && Count(rows, i, IsForeign()) >= Limit(limit) * w
    ensures !Arrives(rows, times, limit, visibility, i)
  {
    hide Keyed, Ticks, Count, OverAfter;
    BatchesAre(limit, w);
    DueIsBounded(rows, times, limit, visibility, i);
    forall n: nat ensures !ArrivedBy(rows, times, limit, visibility, i, n) {
      EventStarves(rows, times, 0, limit, visibility, w, i, n);
    }
  }

  /**
    On a schedule on which a claim is held for w steps, the one that made it included, with every
    event of ours decodable and nothing failing: an event of ours is marked sooner or later exactly
    when fewer foreign events stay pending before it than w drains take.
   */
  lemma ArrivesIff(rows: seq<Row>, times: Clock, limit: nat, visibility: nat, w: nat, i: nat)
    requires Keyed(rows) && Due(rows, times(0)) && AllOursDecode(rows) && Ticks(times)
    requires HeldFor(times, visibility, w) && OverAfter(times, visibility, w)
    requires i < |rows| && Ours(rows[i].event) && !rows[i].published
    ensures Arrives(rows, times, limit, visibility, i) <==> Count(rows, i, IsForeign()) < Limit(limit) * w
  {
    hide Keyed, Ticks, Count, OverAfter, HeldFor, Arrives, Due;
    if Count(rows, i, IsForeign()) < Limit(limit) * w {
      ArrivesWhenBrisk(rows, times, limit, visibility, w, i);
    } else {
      StarvesWhenSlow(rows, times, limit, visibility, w, i);
    }
  }

  /** A step every `gap`: a claim is held for as many steps as gaps begin within the timeout. */
  function Every(start: int, gap: nat): Clock {
    (k: nat) => start + k * gap
  }

  lemma Gaps(j: nat, k: nat, gap: nat)
    ensures (j + k) * gap == j * gap + k * gap
  {
  }

  lemma GapsWithin(visibility: nat, gap: nat, w: nat)
    requires gap > 0 && visibility > 0 && w == (visibility + gap - 1) / gap
    ensures w > 0 && (w - 1) * gap < visibility <= w * gap
  {
    assert visibility + gap - 1 == w * gap + (visibility + gap - 1) % gap;
    assert w > 0;
    assert w * gap == (w - 1) * gap + gap;
  }

  lemma RegularSteps(start: int, gap: nat, visibility: nat, w: nat)
    requires gap > 0 && visibility > 0 && w == (visibility + gap - 1) / gap
    ensures Ticks(Every(start, gap)) && HeldFor(Every(start, gap), visibility, w)
    ensures OverAfter(Every(start, gap), visibility, w)
  {
    var times := Every(start, gap);
    GapsWithin(visibility, gap, w);
    forall k: nat ensures times(k) < times(k + 1) {
      Gaps(k, 1, gap);
    }
    forall k: nat ensures times(k + w - 1) - times(k) < visibility && visibility <= times(k + w) - times(k) {
      Gaps(k, w - 1, gap);
      Gaps(k, w, gap);
    }
  }

  /** The event of ours behind one that nobody handles, drained one at a time. */
  function Behind(change: Change): seq<Row> {
    [Row(Event(1, "billing.invoiced", None, 0), 0, false), Row(Event(2, EVENT_KIND, Some(change), 0), 0, false)]
  }

  /** It waits for ever with an idle interval of the visibility timeout or more, and arrives with any shorter one. */
  lemma StarvedBehindForeign(change: Change, visibility: nat, gap: nat)
    requires visibility > 0 && gap > 0
    ensures Arrives(Behind(change), Every(0, gap), 1, visibility, 1) <==> gap < visibility
  {
    var (rows, w) := (Behind(change), (visibility + gap - 1) / gap);
    assert Count(rows, 0, IsForeign()) == 0;
    assert Count(rows, 1, IsForeign()) == 1;
    RegularSteps(0, gap, visibility, w);
    ArrivesIff(rows, Every(0, gap), 1, visibility, w, 1);
    hide Arrives;
    StepsHeld(visibility, gap, w);
  }

  /** The next step finds the claim held exactly when it comes before the timeout. */
  lemma StepsHeld(visibility: nat, gap: nat, w: nat)
    requires gap > 0 && visibility > 0 && w == (visibility + gap - 1) / gap
    ensures w > 1 <==> gap < visibility
  {
    GapsWithin(visibility, gap, w);
    if w > 1 {
      Gaps(1, w - 2, gap);
    }
  }

  /** With the defaults, a batch of 500, a second between idle steps and thirty seconds a claim, it takes 15000. */
  lemma DefaultReach(rows: seq<Row>, start: int, i: nat)
    requires Keyed(rows) && Due(rows, start) && AllOursDecode(rows)
    requires i < |rows| && Ours(rows[i].event) && !rows[i].published
    ensures Arrives(rows, Every(start, 1000), 500, 30000, i) <==> Count(rows, i, IsForeign()) < 15000
  {
    hide Keyed, Count, Arrives;
    RegularSteps(start, 1000, 30000, 30);
    assert Every(start, 1000)(0) == start;
    hide Every;
    ArrivesIff(rows, Every(start, 1000), 500, 30000, 30, i);
  }

  /** The pump itself, stepping at those times with nothing failing and no limit to its attempts. */
  method PumpOn(p: OutboxPump, times: Clock, n: nat)
    requires Kept(p.rows, p.taken) && p.maxRetry == 0
    modifies p
    ensures Kept(p.rows, p.taken) && p.rows == Ran(old(p.rows), times, 0, p.batch, p.visibility, n)
  {
    hide Kept, Claim, Stepped, AllDecode;
    for k := 0 to n
      invariant Kept(p.rows, p.taken) && p.rows == Ran(old(p.rows), times, 0, p.batch, p.visibility, k)
    {
      ghost var was := p.rows;
      p.now := times(k);
      var handled, ok, events := p.Step(Answer(true, {}, 0, Done, 0));
      RanThen(old(p.rows), times, 0, p.batch, p.visibility, k, 1);
      assert Ran(p.rows, times, k + 1, p.batch, p.visibility, 0) == p.rows;
    }
  }
}
