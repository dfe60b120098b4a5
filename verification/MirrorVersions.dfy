/**
  Change versions: the three bands of the uint64 line, and the view a store that
  keeps the highest version per key ends up with.
 */
module MirrorVersions {
  import opened Wrappers
  import opened NewestWins

  const TWO_63: int := 0x8000_0000_0000_0000
  const TWO_64: int := 0x1_0000_0000_0000_0000
  const MAX_SEED_VERSION: int := 0xFFF_FFFF_FFFF
  const LIVE_VERSION_BASE: int := TWO_63

  type int64 = x: int | -0x8000_0000_0000_0000 <= x < 0x8000_0000_0000_0000
  type uint64 = x: int | 0 <= x < 0x1_0000_0000_0000_0000

  // ----------------------------------------------------------------------- bands

  predicate InSeedBand(v: uint64) {
    1 <= v <= MAX_SEED_VERSION
  }

  predicate InClockBand(v: uint64) {
    MAX_SEED_VERSION < v < LIVE_VERSION_BASE
  }

  predicate InLiveBand(v: uint64) {
    LIVE_VERSION_BASE <= v
  }

  /** A sequence number, into the live band. A negative one is not a sequence number. */
  function LiveVersion(seqNo: int64): (v: uint64)
    ensures InLiveBand(v)
  {
    if seqNo < 0 then LIVE_VERSION_BASE else LIVE_VERSION_BASE + seqNo
  }

  /** Nanoseconds since the epoch, into the clock band. */
  function ClockVersion(nanos: int64): (v: uint64)
    ensures InClockBand(v)
  {
    if nanos <= MAX_SEED_VERSION then MAX_SEED_VERSION + 1 else nanos
  }

  /** Milliseconds since the epoch, into the seed band. */
  function SeedVersionAt(millis: int64): (v: uint64)
    ensures InSeedBand(v)
  {
    if millis < 1 then 1 else if millis > MAX_SEED_VERSION then MAX_SEED_VERSION else millis
  }

  /** A stream position. The sum wraps as uint64 addition does. */
  function LSNVersion(lsn: uint64): uint64 {
    (TWO_63 + lsn) % TWO_64
  }

  /**
    Each mapping keeps the order it was given, strictly but for the readings it lifts to the bottom of
    its band or holds at the top, and the bands are ordered among themselves.
   */
  lemma VersionsKeepOrder(a: int64, b: int64, c: int64)
    requires a <= b
    ensures LiveVersion(a) <= LiveVersion(b) && (LiveVersion(a) == LiveVersion(b) <==> a == b || b <= 0)
    ensures ClockVersion(a) <= ClockVersion(b)
    ensures ClockVersion(a) == ClockVersion(b) <==> a == b || b <= MAX_SEED_VERSION + 1
    ensures SeedVersionAt(a) <= SeedVersionAt(b)
    ensures SeedVersionAt(a) == SeedVersionAt(b) <==> a == b || b <= 1 || a >= MAX_SEED_VERSION
    ensures SeedVersionAt(a) < ClockVersion(c) < LiveVersion(b)
  {
  }

  /** Two passes of a reseed in order: the later one's rows win over the earlier one's and lose to all others. */
  lemma LaterPassWins(first: int64, second: int64, live: int64)
    requires 1 <= first < second <= MAX_SEED_VERSION
    ensures SeedVersionAt(first) < SeedVersionAt(second) < ClockVersion(live)
    ensures SeedVersionAt(second) < LiveVersion(live)
  {
    VersionsKeepOrder(first, second, live);
  }

  /** A position keeps its place in the live band exactly while it fits in 63 bits. */
  lemma LSNVersionInBand(lsn: uint64)
    ensures InLiveBand(LSNVersion(lsn)) <==> lsn < TWO_63
    ensures lsn < TWO_63 ==> LSNVersion(lsn) == LIVE_VERSION_BASE + lsn
  {
    if lsn < TWO_63 {
      assert TWO_63 + lsn < TWO_64;
    } else {
      assert TWO_63 + lsn == TWO_64 + (lsn - TWO_63);
      assert (TWO_63 + lsn) % TWO_64 == lsn - TWO_63;
    }
  }

  // --------------------------------------------------------------------- changes

  datatype Op = Insert | Update | Delete
  datatype Change = Change(op: Op, key: string, row: map<string, string>, version: uint64, at: Option<int64>)

  /** A change without a key cannot be addressed. */
  predicate IsValid(ch: Change) {
    ch.key != ""
  }

  /** Fills in the time and, where the source gave none, a clock version. */
  function Normalized(c: Change, now: int64): (r: Change)
    ensures r.version != 0 && r.at.Some? && r.key == c.key && r.op == c.op && r.row == c.row
    ensures c.version != 0 ==> r.version == c.version
    ensures r.at == Some(if c.at.Some? then c.at.value else now)
    ensures c.version == 0 ==> InClockBand(r.version) && (r.at.value > MAX_SEED_VERSION ==> r.version == r.at.value)
  {
    var at := if c.at.None? then now else c.at.value;
    c.(at := Some(at), version := if c.version == 0 then ClockVersion(at) else c.version)
  }

  // -------------------------------------------------------------- the maximum view

  function KeyOf(c: Change): string {
    c.key
  }

  function VersionOf(c: Change): int {
    c.version
  }

  /** What a key shows after the writes: the highest version, the later of two that tie. */
  function View(writes: seq<Change>, key: string): Option<Change> {
    Newest(KeyOf, VersionOf, writes, key)
  }

  /** What a reader sees: a tombstone hides the row. */
  function Visible(writes: seq<Change>, key: string): Option<Change> {
    match View(writes, key)
    case None => None
    case Some(c) => if c.op == Delete then None else Some(c)
  }

  /** The view is one of the writes to the key, and none of those is newer. */
  lemma ViewIsHighest(writes: seq<Change>, key: string)
    ensures match View(writes, key)
      case None => forall c :: c in Written(writes) ==> c.key != key
      case Some(v) => v in Written(writes) && v.key == key
                      && forall c :: c in Written(writes) && c.key == key ==> c.version <= v.version
  {
    NewestIsHighest(KeyOf, VersionOf, writes, key);
  }

  /** A seeded row never shows for a key that a clock or a sequence has written, nor a clock for a sequenced one. */
  lemma BandsDecide(writes: seq<Change>, c: Change)
    requires c in Written(writes)
    ensures View(writes, c.key).Some?
    ensures InClockBand(c.version) || InLiveBand(c.version) ==> !InSeedBand(View(writes, c.key).value.version)
    ensures InLiveBand(c.version) ==> InLiveBand(View(writes, c.key).value.version)
  {
    ViewIsHighest(writes, c.key);
  }

  // -------------------------------------------------------- whole transactions

  /** A transaction's changes, all at the version of its commit position. */
  datatype Tx = Tx(lsn: uint64, changes: seq<Change>)

  ghost predicate Stamped(t: Tx) {
    t.lsn < TWO_63 && forall i :: 0 <= i < |t.changes| ==> t.changes[i].version == LSNVersion(t.lsn)
  }

  function Flatten(txs: seq<Tx>): seq<Change> {
    if txs == [] then [] else Flatten(txs[..|txs| - 1]) + txs[|txs| - 1].changes
  }

  /** The last change a transaction makes to a key. */
  function LastOf(changes: seq<Change>, key: string): Option<Change> {
    if changes == [] then None
    else if changes[|changes| - 1].key == key then Some(changes[|changes| - 1])
    else LastOf(changes[..|changes| - 1], key)
  }

  ghost predicate Stream(txs: seq<Tx>) {
    && (forall i :: 0 <= i < |txs| ==> Stamped(txs[i]))
    && (forall i, j :: 0 <= i < |txs| && 0 <= j < |txs| && txs[i].lsn == txs[j].lsn ==> txs[i] == txs[j])
  }

  /** Writing a transaction at or above everything so far leaves its own last change showing. */
  lemma {:induction false} ViewAppend(writes: seq<Change>, more: seq<Change>, key: string, version: uint64)
    requires forall i :: 0 <= i < |more| ==> more[i].version == version
    ensures var v := View(writes, key);
      View(writes + more, key) ==
        if LastOf(more, key).Some? && (v.None? || v.value.version <= version) then LastOf(more, key) else v
  {
    if more == [] {
      assert writes + more == writes;
    } else {
      var front := more[..|more| - 1];
      ViewAppend(writes, front, key, version);
      assert (writes + more)[..|writes + more| - 1] == writes + front;
      LastOfVersion(front, key, version);
    }
  }

  lemma {:induction false} LastOfVersion(changes: seq<Change>, key: string, version: uint64)
    requires forall i :: 0 <= i < |changes| ==> changes[i].version == version
    ensures LastOf(changes, key).Some? ==> LastOf(changes, key).value.version == version
  {
    if changes != [] {
      LastOfVersion(changes[..|changes| - 1], key, version);
    }
  }

  ghost predicate Writes(t: Tx, key: string) {
    LastOf(t.changes, key).Some?
  }

  /** The view is the last change to the key in the latest transaction that touches it. */
  ghost predicate ShowsLatest(txs: seq<Tx>, key: string, v: Option<Change>) {
    match v
    case None => forall i :: 0 <= i < |txs| ==> !Writes(txs[i], key)
    case Some(c) => exists i :: 0 <= i < |txs| && LatestWriter(txs, i, key) && LastOf(txs[i].changes, key) == Some(c)
  }

  ghost predicate LatestWriter(txs: seq<Tx>, i: nat, key: string)
    requires i < |txs|
  {
    Writes(txs[i], key) && forall j :: 0 <= j < |txs| && Writes(txs[j], key) ==> txs[j].lsn <= txs[i].lsn
  }

  lemma {:induction false} DeliveryShowsLatest(txs: seq<Tx>, key: string)
    requires Stream(txs)
    ensures ShowsLatest(txs, key, View(Flatten(txs), key))
  {
    if txs != [] {
      var (rest, last) := (txs[..|txs| - 1], txs[|txs| - 1]);
      DeliveryShowsLatest(rest, key);
      var version := LSNVersion(last.lsn);
      LSNVersionInBand(last.lsn);
      ViewAppend(Flatten(rest), last.changes, key, version);
      LatestStep(txs, key, View(Flatten(rest), key), View(Flatten(txs), key));
    }
  }

  lemma LatestStep(txs: seq<Tx>, key: string, before: Option<Change>, after: Option<Change>)
    requires txs != [] && Stream(txs) && ShowsLatest(txs[..|txs| - 1], key, before)
    requires var (more, version) := (txs[|txs| - 1].changes, LSNVersion(txs[|txs| - 1].lsn));
      after ==
        if LastOf(more, key).Some? && (before.None? || before.value.version <= version) then LastOf(more, key)
        else before
    ensures ShowsLatest(txs, key, after)
  {
    var n := |txs| - 1;
    var rest := txs[..n];
    assert forall j :: 0 <= j < n ==> rest[j] == txs[j];
    LSNVersionInBand(txs[n].lsn);
    hide LSNVersion, LastOf;
    if before.Some? {
      var i :| 0 <= i < n && LatestWriter(rest, i, key) && LastOf(rest[i].changes, key) == before;
      LSNVersionInBand(txs[i].lsn);
      LastOfVersion(txs[i].changes, key, LSNVersion(txs[i].lsn));
      if Writes(txs[n], key) && txs[i].lsn <= txs[n].lsn {
        assert LatestWriter(txs, n, key);
      } else {
        assert LatestWriter(txs, i, key);
      }
    } else if Writes(txs[n], key) {
      assert LatestWriter(txs, n, key);
    }
  }

  /**
    The latest transaction that touches a key decides what a reader sees of it, whatever is replayed
    around it: a delete and a re-insert inside it share its version, and the last of them counts.
   */
  lemma LatestTransactionShows(txs: seq<Tx>, i: nat, key: string)
    requires Stream(txs) && i < |txs| && LatestWriter(txs, i, key)
    ensures View(Flatten(txs), key) == LastOf(txs[i].changes, key)
    ensures var last := LastOf(txs[i].changes, key);
      Visible(Flatten(txs), key) == if last.value.op == Delete then None else last
  {
    DeliveryShowsLatest(txs, key);
    hide View, Flatten, LastOf;
  }

  /** However whole transactions are interleaved, repeated and batched, only which ones arrived matters. */
  lemma TransactionsDecide(a: seq<Tx>, b: seq<Tx>, key: string)
    requires Stream(a) && Stream(b) && forall t :: t in a <==> t in b
    ensures View(Flatten(a), key) == View(Flatten(b), key)
  {
    DeliveryShowsLatest(a, key);
    DeliveryShowsLatest(b, key);
    hide View, Flatten, LastOf;
    SameShow(a, b, key, View(Flatten(a), key), View(Flatten(b), key));
  }

  lemma SameShow(a: seq<Tx>, b: seq<Tx>, key: string, v: Option<Change>, w: Option<Change>)
    requires Stream(a) && Stream(b) && forall t :: t in a <==> t in b
    requires ShowsLatest(a, key, v) && ShowsLatest(b, key, w)
    ensures v == w
  {
    hide LastOf;
    if v.Some? {
      var i :| 0 <= i < |a| && LatestWriter(a, i, key) && LastOf(a[i].changes, key) == v;
      assert a[i] in b;
      var i' :| 0 <= i' < |b| && b[i'] == a[i];
      assert Writes(b[i'], key);
      var j :| 0 <= j < |b| && LatestWriter(b, j, key) && LastOf(b[j].changes, key) == w;
      assert b[j] in a;
      var j' :| 0 <= j' < |a| && a[j'] == b[j];
      assert a[i].lsn == a[j'].lsn;
    } else {
      forall j | 0 <= j < |b| ensures !Writes(b[j], key) {
        assert b[j] in a;
      }
    }
  }
}
