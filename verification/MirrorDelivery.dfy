/**
  Delivery: a replication stream buffered as whole transactions, fetched in batches,
  applied to every sink and acknowledged by position.
 */
module MirrorDelivery {
  import opened Wrappers
  import opened MirrorVersions

  // --------------------------------------------------------------------- decoding

  /** A row mutation as the stream carries it; an operation it cannot name is None. */
  datatype Message = Message(schema: string, table: string, op: Option<Op>,
                             newRow: Option<map<string, string>>, oldRow: Option<map<string, string>>)
  datatype SourceTx = SourceTx(commitLSN: uint64, commitTime: int64, changes: seq<Message>)
  datatype DecodeFault = UnknownOperation | NoKeyColumn | UnaddressableKey

  /** The key column of a relation; "schema.table" wins over the bare name. */
  function KeyColumn(tables: map<string, string>, schema: string, table: string): Option<string> {
    if schema != "" && schema + "." + table in tables then Some(tables[schema + "." + table])
    else if table in tables then Some(tables[table])
    else None
  }

  /** The relation has an entry, under its qualified name or the bare one. */
  ghost predicate Mirrored(tables: map<string, string>, schema: string, table: string) {
    (schema != "" && schema + "." + table in tables) || table in tables
  }

  /** The relation is keyed by its qualified entry where there is one, and otherwise by the bare one. */
  ghost predicate KeyedAs(tables: map<string, string>, schema: string, table: string, col: string) {
    var qualified := schema + "." + table;
    || (schema != "" && qualified in tables && tables[qualified] == col)
    || ((schema == "" || qualified !in tables) && table in tables && tables[table] == col)
  }

  lemma KeyColumnExact(tables: map<string, string>, schema: string, table: string)
    ensures KeyColumn(tables, schema, table).None? <==> !Mirrored(tables, schema, table)
    ensures forall col :: KeyColumn(tables, schema, table) == Some(col) <==> KeyedAs(tables, schema, table, col)
  {
  }

  function DecodeMessage(m: Message, tx: SourceTx, tables: map<string, string>): Result<Option<Change>, DecodeFault> {
    match KeyColumn(tables, m.schema, m.table)
    case None => Ok(None)
    case Some(keyCol) =>
      if m.op.None? then Err(UnknownOperation)
      else
        var src := if m.newRow.Some? then m.newRow else m.oldRow;
        if src.None? || keyCol !in src.value then Err(NoKeyColumn)
        else if src.value[keyCol] == "" then Err(UnaddressableKey)
        else
          var row := if m.op.value == Delete || m.newRow.None? then map[] else m.newRow.value;
          Ok(Some(Change(m.op.value, src.value[keyCol], row, LSNVersion(tx.commitLSN), Some(tx.commitTime))))
  }

  /** The changes of the first n messages, in order, without the relations the mirror does not hold. */
  function DecodeFirst(tx: SourceTx, tables: map<string, string>, n: nat): Result<seq<Change>, DecodeFault>
    requires n <= |tx.changes|
  {
    if n == 0 then Ok([])
    else
      match DecodeFirst(tx, tables, n - 1)
      case Err(e) => Err(e)
      case Ok(out) =>
        match DecodeMessage(tx.changes[n - 1], tx, tables)
        case Err(e) => Err(e)
        case Ok(None) => Ok(out)
        case Ok(Some(c)) => Ok(out + [c])
  }

  function Decoded(tx: SourceTx, tables: map<string, string>): Result<seq<Change>, DecodeFault> {
    DecodeFirst(tx, tables, |tx.changes|)
  }

  lemma {:induction false} FaultsStay(tx: SourceTx, tables: map<string, string>, n: nat, m: nat)
    requires n <= m <= |tx.changes| && DecodeFirst(tx, tables, n).Err?
    ensures DecodeFirst(tx, tables, m) == DecodeFirst(tx, tables, n)
    decreases m
  {
    if n < m {
      FaultsStay(tx, tables, n, m - 1);
    }
  }

  /** The row that carries a message's key: the new one, or the old one where there is no new. */
  ghost function KeyRow(m: Message): Option<map<string, string>> {
    if m.newRow.Some? then m.newRow else m.oldRow
  }

  /** What is wrong with a message keyed by this column. */
  ghost predicate FaultOf(m: Message, col: string, e: DecodeFault) {
    match e
    case UnknownOperation => m.op.None?
    case NoKeyColumn => m.op.Some? && (KeyRow(m).None? || col !in KeyRow(m).value)
    case UnaddressableKey => m.op.Some? && KeyRow(m).Some? && col in KeyRow(m).value && KeyRow(m).value[col] == ""
  }

  ghost predicate Faulty(m: Message, tables: map<string, string>, e: DecodeFault) {
    exists col :: KeyedAs(tables, m.schema, m.table, col) && FaultOf(m, col, e)
  }

  /** The change a message is, keyed by this column: its operation, its key, the row it leaves, its commit. */
  ghost predicate ChangeOf(m: Message, col: string, tx: SourceTx, c: Change) {
    && m.op == Some(c.op)
    && KeyRow(m).Some? && col in KeyRow(m).value && c.key == KeyRow(m).value[col] && c.key != ""
    && (c.op == Delete ==> c.row == map[])
    && (c.op != Delete ==> c.row == if m.newRow.Some? then m.newRow.value else map[])
    && c.version == LSNVersion(tx.commitLSN) && c.at == Some(tx.commitTime)
  }

  ghost predicate DecodesTo(m: Message, tables: map<string, string>, tx: SourceTx, c: Change) {
    exists col :: KeyedAs(tables, m.schema, m.table, col) && ChangeOf(m, col, tx, c)
  }

  lemma MessageExact(m: Message, tx: SourceTx, tables: map<string, string>)
    ensures var r := DecodeMessage(m, tx, tables);
      && (forall e :: r == Err(e) <==> Faulty(m, tables, e))
      && (r == Ok(None) <==> !Mirrored(tables, m.schema, m.table))
      && (forall c :: r == Ok(Some(c)) <==> DecodesTo(m, tables, tx, c))
  {
    hide KeyedAs, KeyColumn, LSNVersion;
    KeyColumnExact(tables, m.schema, m.table);
    var key := KeyColumn(tables, m.schema, m.table);
    if key.Some? {
      assert KeyedAs(tables, m.schema, m.table, key.value);
      assert forall col :: KeyedAs(tables, m.schema, m.table, col) ==> col == key.value;
      assert forall e :: Faulty(m, tables, e) <==> FaultOf(m, key.value, e);
    } else {
      assert forall col :: !KeyedAs(tables, m.schema, m.table, col);
    }
  }

  /** One change for every message of a relation the mirror holds, in the stream's order, and no other. */
  ghost predicate HeldAt(tx: SourceTx, tables: map<string, string>, n: nat, out: seq<Change>, at: seq<nat>)
    requires n <= |tx.changes|
  {
    && |at| == |out| && (forall i, j :: 0 <= i < j < |at| ==> at[i] < at[j])
    && (forall i :: 0 <= i < |at| ==> at[i] < n && DecodesTo(tx.changes[at[i]], tables, tx, out[i]))
    && (forall k: nat :: k < n ==> (Mirrored(tables, tx.changes[k].schema, tx.changes[k].table) <==> k in at))
  }

  /** The first message at fault is what fails the transaction. */
  ghost predicate FailsAt(tx: SourceTx, tables: map<string, string>, k: nat, e: DecodeFault) {
    && k < |tx.changes| && Faulty(tx.changes[k], tables, e)
    && forall j, x :: 0 <= j < k ==> !Faulty(tx.changes[j], tables, x)
  }

  lemma {:induction false} DecodedExact(tx: SourceTx, tables: map<string, string>, n: nat) returns (at: seq<nat>)
    requires n <= |tx.changes|
    ensures match DecodeFirst(tx, tables, n)
      case Ok(out) => HeldAt(tx, tables, n, out, at)
                      && forall j, x :: 0 <= j < n ==> !Faulty(tx.changes[j], tables, x)
      case Err(e) => exists k: nat :: k < n && FailsAt(tx, tables, k, e)
  {
    hide DecodeMessage, Faulty, DecodesTo, Mirrored;
    at := [];
    if n > 0 {
      at := DecodedExact(tx, tables, n - 1);
      MessageExact(tx.changes[n - 1], tx, tables);
      var before, one := DecodeFirst(tx, tables, n - 1), DecodeMessage(tx.changes[n - 1], tx, tables);
      if before.Ok? && one.Err? {
        assert FailsAt(tx, tables, n - 1, one.error);
      } else if before.Ok? && one.value.Some? {
        assert forall k :: k in at ==> k < n - 1;
        at := at + [n - 1];
      }
    }
  }

  /**
    One transaction into changes: every message of a relation the mirror holds, under its qualified
    name or its bare one, becomes the change it is, and the first that cannot fails the transaction.
   */
  method Decode(tx: SourceTx, tables: map<string, string>) returns (r: Result<seq<Change>, DecodeFault>)
    ensures r == Decoded(tx, tables)
    ensures r.Ok? ==> exists at :: HeldAt(tx, tables, |tx.changes|, r.value, at)
    ensures r.Err? ==> exists k: nat :: FailsAt(tx, tables, k, r.error)
  {
    ghost var at := DecodedExact(tx, tables, |tx.changes|);
    hide HeldAt, FailsAt, DecodeMessage;
    var out: seq<Change> := [];
    for i := 0 to |tx.changes|
      invariant DecodeFirst(tx, tables, i) == Ok(out)
    {
      var one := DecodeMessage(tx.changes[i], tx, tables);
      match one
      case Err(e) =>
        assert DecodeFirst(tx, tables, i + 1) == Err(e);
        FaultsStay(tx, tables, i + 1, |tx.changes|);
        return Err(e);
      case Ok(None) =>
      case Ok(Some(c)) =>
        out := out + [c];
    }
    return Ok(out);
  }

  /** Every decoded change is addressable and carries the commit position of its transaction. */
  lemma {:induction false} DecodedIsStamped(tx: SourceTx, tables: map<string, string>, n: nat)
    requires n <= |tx.changes|
    ensures DecodeFirst(tx, tables, n).Ok? ==>
              forall i :: 0 <= i < |DecodeFirst(tx, tables, n).value| ==>
                var c := DecodeFirst(tx, tables, n).value[i]; c.version == LSNVersion(tx.commitLSN) && c.key != ""
  {
    if n > 0 {
      DecodedIsStamped(tx, tables, n - 1);
    }
  }

  function DecodeAll(txs: seq<SourceTx>, tables: map<string, string>): Result<seq<Change>, DecodeFault> {
    if txs == [] then Ok([])
    else
      match DecodeAll(txs[..|txs| - 1], tables)
      case Err(e) => Err(e)
      case Ok(out) =>
        match Decoded(txs[|txs| - 1], tables)
        case Err(e) => Err(e)
        case Ok(more) => Ok(out + more)
  }

  /** A commit position names one transaction, and fits in 63 bits. */
  ghost predicate Positioned(txs: seq<SourceTx>) {
    && (forall i :: 0 <= i < |txs| ==> txs[i].commitLSN < TWO_63)
    && (forall i, j :: 0 <= i < |txs| && 0 <= j < |txs| && txs[i].commitLSN == txs[j].commitLSN ==> txs[i] == txs[j])
  }

  ghost predicate IsTx(tx: SourceTx, tables: map<string, string>, t: Tx) {
    t.lsn == tx.commitLSN && Decoded(tx, tables) == Ok(t.changes)
  }

  /** Batches of whole transactions deliver the stream of the max-version theorems. */
  lemma DecodedStream(txs: seq<SourceTx>, tables: map<string, string>) returns (stream: seq<Tx>)
    requires DecodeAll(txs, tables).Ok? && Positioned(txs)
    ensures Stream(stream) && |stream| == |txs| && Flatten(stream) == DecodeAll(txs, tables).value
    ensures forall i :: 0 <= i < |txs| ==> IsTx(txs[i], tables, stream[i])
  {
    stream := DecodedEach(txs, tables);
    hide Decoded, DecodeAll, Flatten, Stamped;
  }

  lemma DecodedTx(tx: SourceTx, tables: map<string, string>)
    requires Decoded(tx, tables).Ok? && tx.commitLSN < TWO_63
    ensures Stamped(Tx(tx.commitLSN, Decoded(tx, tables).value))
  {
    DecodedIsStamped(tx, tables, |tx.changes|);
    hide DecodeFirst, LSNVersion;
  }

  lemma {:induction false} DecodedEach(txs: seq<SourceTx>, tables: map<string, string>) returns (stream: seq<Tx>)
    requires DecodeAll(txs, tables).Ok? && forall i :: 0 <= i < |txs| ==> txs[i].commitLSN < TWO_63
    ensures |stream| == |txs| && Flatten(stream) == DecodeAll(txs, tables).value
    ensures forall i :: 0 <= i < |txs| ==> Stamped(stream[i]) && IsTx(txs[i], tables, stream[i])
  {
    hide Decoded, Stamped, LSNVersion;
    if txs == [] {
      stream := [];
    } else {
      var last := txs[|txs| - 1];
      var front := DecodedEach(txs[..|txs| - 1], tables);
      DecodedTx(last, tables);
      stream := front + [Tx(last.commitLSN, Decoded(last, tables).value)];
      assert stream[..|stream| - 1] == front;
    }
  }

  // --------------------------------------------------------- the session, abstractly

  /**
    One mirror over one stream. Transactions [head, read) wait in the buffer, those
    below `acked` are confirmed, `applied` are the ones every sink has accepted.
   */
  datatype State = State(head: nat, read: nat, acked: nat, applied: set<nat>, attempt: nat, running: bool)

  datatype Outcome = NotFetched | NotApplied | NotCommitted | Committed

  /** The reader buffers one more; a step takes n transactions; the stream reopens at the last ack. */
  datatype Event = Arrive | Idle | StreamDown | Step(n: nat, outcome: Outcome) | Reopen

  const START := State(0, 0, 0, {}, 0, true)

  function Range(lo: nat, hi: nat): (r: set<nat>)
    ensures forall i: nat :: i in r <==> lo <= i < hi
    decreases hi - lo
  {
    if lo >= hi then {} else {lo} + Range(lo + 1, hi)
  }

  /** A failed step uses up an attempt; Run gives up when the budget is spent. Zero is no budget. */
  function Failed(maxRetry: nat, s: State): State {
    s.(attempt := s.attempt + 1, running := !(maxRetry > 0 && s.attempt + 1 >= maxRetry))
  }

  function Next(maxRetry: nat, s: State, e: Event): State {
    match e
    case Arrive => if s.running then s.(read := s.read + 1) else s
    case Idle => if s.running then s.(attempt := 0) else s
    case StreamDown => if s.running then Failed(maxRetry, s) else s
    case Step(n, outcome) =>
      if !s.running || n == 0 || s.head + n > s.read then s
      else
        var taken := s.(head := s.head + n);
        var done := taken.(applied := s.applied + Range(s.head, s.head + n));
        (match outcome
         case NotFetched => Failed(maxRetry, taken)
         case NotApplied => Failed(maxRetry, taken)
         case NotCommitted => Failed(maxRetry, done)
         case Committed => done.(acked := done.head, attempt := 0))
    case Reopen => s.(head := s.acked, read := s.acked, attempt := 0, running := true)
  }

  function After(maxRetry: nat, s: State, events: seq<Event>): State
    decreases events
  {
    if events == [] then s else After(maxRetry, Next(maxRetry, s, events[0]), events[1..])
  }

  /** Once the budget is spent nothing happens to a session until it is reopened. */
  lemma {:induction false} StoppedStays(maxRetry: nat, s: State, events: seq<Event>)
    requires !s.running && Reopen !in events
    ensures After(maxRetry, s, events) == s
    decreases events
  {
    if events != [] {
      assert events[0] in events;
      StoppedStays(maxRetry, s, events[1..]);
    }
  }

  /** No confirmed position passes a transaction some sink has not accepted. */
  ghost predicate Safe(s: State) {
    forall i: nat :: i < s.acked ==> i in s.applied
  }

  ghost predicate Kept(s: State) {
    && s.acked <= s.head <= s.read
    && (forall i: nat :: i < s.acked ==> i in s.applied)
    && (s.running ==> forall i: nat :: i < s.head ==> i in s.applied)
  }

  lemma {:induction false} OneAttemptKeeps(s: State, events: seq<Event>)
    requires Kept(s)
    ensures Kept(After(1, s, events))
    decreases events
  {
    if events != [] {
      assert Kept(Next(1, s, events[0]));
      OneAttemptKeeps(Next(1, s, events[0]), events[1..]);
    }
  }

  /** A sink fails on the first transaction, and the retry fetches and acknowledges the second. */
  function Retried(): seq<Event> {
    [Arrive, Step(1, NotApplied), Arrive, Step(1, Committed)]
  }

  lemma RetryLoses(maxRetry: nat)
    requires maxRetry != 1
    ensures var s := After(maxRetry, START, Retried()); s.acked == 2 && 0 !in s.applied && !Safe(s)
  {
    var s1 := Next(maxRetry, START, Arrive);
    var s2 := Next(maxRetry, s1, Step(1, NotApplied));
    var s3 := Next(maxRetry, s2, Arrive);
    var s4 := Next(maxRetry, s3, Step(1, Committed));
    assert s4.acked == 2 && 0 !in s4.applied;
    hide Next;
    AfterFour(maxRetry, START, Arrive, Step(1, NotApplied), Arrive, Step(1, Committed));
  }

  lemma AfterFour(maxRetry: nat, s: State, a: Event, b: Event, c: Event, d: Event)
    ensures After(maxRetry, s, [a, b, c, d]) ==
            Next(maxRetry, Next(maxRetry, Next(maxRetry, Next(maxRetry, s, a), b), c), d)
  {
    hide Next;
    assert [a, b, c, d][1..] == [b, c, d] && [b, c, d][1..] == [c, d] && [c, d][1..] == [d] && [d][1..] == [];
    var s1 := Next(maxRetry, s, a);
    var s2 := Next(maxRetry, s1, b);
    var s3 := Next(maxRetry, s2, c);
    assert After(maxRetry, s3, [d]) == Next(maxRetry, s3, d);
    assert After(maxRetry, s2, [c, d]) == After(maxRetry, s3, [d]);
    assert After(maxRetry, s1, [b, c, d]) == After(maxRetry, s2, [c, d]);
  }

  /**
    Over a source that hands a batch out once, acknowledged by a cumulative position, every
    run is safe exactly when a failed step ends the session.
   */
  lemma SafeIffOneAttempt(maxRetry: nat)
    ensures (forall events :: Safe(After(maxRetry, START, events))) <==> maxRetry == 1
  {
    if maxRetry == 1 {
      forall events ensures Safe(After(maxRetry, START, events)) {
        OneAttemptKeeps(START, events);
      }
    } else {
      RetryLoses(maxRetry);
    }
  }

  // ------------------------------------------------------- from a safe run to the view

  ghost predicate Within(order: seq<nat>, n: nat) {
    forall i :: 0 <= i < |order| ==> order[i] < n
  }

  /** The transactions a sink was handed, in the order it was handed them. */
  ghost function Picked(log: seq<Tx>, order: seq<nat>): (r: seq<Tx>)
    requires Within(order, |log|)
    ensures |r| == |order| && forall i :: 0 <= i < |order| ==> r[i] == log[order[i]]
  {
    seq(|order|, i requires 0 <= i < |order| => log[order[i]])
  }

  ghost predicate Increasing(log: seq<Tx>) {
    forall i, j :: 0 <= i < j < |log| ==> log[i].lsn < log[j].lsn
  }

  /**
    After any run with one attempt per session, a sink that was handed at least what every sink
    accepted, in any order and with repeats, shows for each key the last change of the latest
    transaction that touches it, once that transaction has been confirmed.
   */
  lemma SafeRunShows(log: seq<Tx>, events: seq<Event>, order: seq<nat>, i: nat, key: string)
    requires Increasing(log) && forall k :: 0 <= k < |log| ==> Stamped(log[k])
    requires Within(order, |log|)
    requires var end := After(1, START, events); i < end.acked && forall k :: k in end.applied ==> k in order
    requires i < |log| && Writes(log[i], key) && forall k: nat :: k in order && i < k < |log| ==> !Writes(log[k], key)
    ensures View(Flatten(Picked(log, order)), key) == LastOf(log[i].changes, key)
    ensures Visible(Flatten(Picked(log, order)), key) ==
            if LastOf(log[i].changes, key).value.op == Delete then None else LastOf(log[i].changes, key)
  {
    OneAttemptKeeps(START, events);
    hide After, Flatten, Stamped, View;
    var txs := Picked(log, order);
    assert i in order;
    var at :| 0 <= at < |order| && order[at] == i;
    forall a, b | 0 <= a < |txs| && 0 <= b < |txs| && txs[a].lsn == txs[b].lsn ensures txs[a] == txs[b] {
      assert order[a] == order[b];
    }
    forall j | 0 <= j < |txs| && Writes(txs[j], key) ensures txs[j].lsn <= txs[at].lsn {
      assert order[j] in order;
    }
    assert LatestWriter(txs, at, key);
    LatestTransactionShows(txs, at, key);
  }

  // -------------------------------------------------------- the session, concretely

  /** How the world answers one step: which sinks accept, whether the ack gets through, whether the stream is up. */
  datatype Answer = Answer(sinks: seq<bool>, commits: bool, up: bool)

  /** A batch is acknowledged only once it decodes, every sink has taken it and the ack gets through. */
  ghost function OutcomeOf(decoded: Result<seq<Change>, DecodeFault>, answer: Answer): Outcome {
    if decoded.Err? then NotFetched
    else if decoded.value != [] && exists i :: 0 <= i < |answer.sinks| && !answer.sinks[i] then NotApplied
    else if !answer.commits then NotCommitted
    else Committed
  }

  /** What arrives before a step, and how that step is answered. */
  datatype Turn = Turn(arrivals: seq<SourceTx>, answer: Answer)

  lemma {:induction false} AfterSnoc(maxRetry: nat, s: State, events: seq<Event>, e: Event)
    ensures After(maxRetry, s, events + [e]) == Next(maxRetry, After(maxRetry, s, events), e)
    decreases events
  {
    hide Next;
    if events == [] {
      assert ([] + [e])[1..] == [];
    } else {
      assert (events + [e])[1..] == events[1..] + [e];
      AfterSnoc(maxRetry, Next(maxRetry, s, events[0]), events[1..], e);
    }
  }

  datatype Fetched = Nothing | Faulty | Batch(changes: seq<Change>, ackLSN: uint64)

  class Session {
    const tables: map<string, string>
    const maxRetry: nat
    const batch: nat
    var txs: seq<SourceTx>
    var attempt: nat
    var running: bool
    ghost var log: seq<SourceTx>
    ghost var acked: nat
    ghost var applied: set<nat>

    ghost predicate Valid()
      reads this
    {
      |txs| <= |log| && log[|log| - |txs|..] == txs
    }

    ghost function Here(): State
      reads this
      requires Valid()
    {
      State(|log| - |txs|, |log|, acked, applied, attempt, running)
    }

    constructor (tables: map<string, string>, maxRetry: nat, batch: nat)
      ensures Valid() && Here() == START && this.maxRetry == maxRetry && this.batch == batch && this.tables == tables
      ensures log == []
    {
      this.tables, this.maxRetry, this.batch := tables, maxRetry, batch;
      txs, attempt, running := [], 0, true;
      log, acked, applied := [], 0, {};
    }

    /** The reader hands over one whole transaction. */
    method Receive(tx: SourceTx)
      requires Valid() && running
      modifies this`txs, this`log
      ensures Valid() && Here() == Next(maxRetry, old(Here()), Arrive)
      ensures txs == old(txs) + [tx] && log == old(log) + [tx]
    {
      txs := txs + [tx];
      log := log + [tx];
    }

    /**
      The changes of one or more whole transactions off the front of the buffer: enough to
      reach max, or all there are, and never a transaction in part.
     */
    method Fetch(max: nat) returns (r: Fetched, ghost n: nat)
      requires Valid()
      modifies this`txs
      ensures Valid() && n <= |old(txs)| && txs == old(txs)[n..]
      ensures (n == 0 <==> r.Nothing?) && (n == 0 <==> old(txs) == [])
      ensures r.Faulty? <==> n > 0 && DecodeAll(old(txs)[..n], tables).Err?
      ensures r.Batch? ==>
        && DecodeAll(old(txs)[..n], tables) == Ok(r.changes) && r.ackLSN == old(txs)[n - 1].commitLSN
        && (n == |old(txs)| || (r.changes != [] && |r.changes| >= max))
        && (n > 1 ==> DecodeAll(old(txs)[..n - 1], tables).Ok?
                      && var before := DecodeAll(old(txs)[..n - 1], tables).value; before == [] || |before| < max)
    {
      hide Decoded, DecodeAll, HeldAt, FailsAt;
      if txs == [] {
        return Nothing, 0;
      }
      ghost var all := txs;
      var first := txs[0];
      txs := txs[1..];
      n := 1;
      var ackLSN := first.commitLSN;
      var decoded := Decode(first, tables);
      DecodeNext(all, tables, 0);
      if decoded.Err? {
        return Faulty, n;
      }
      var changes := decoded.value;
      assert [] + changes == changes;
      while |changes| < Max(max) && txs != []
        invariant 1 <= n <= |all| && txs == all[n..] && ackLSN == all[n - 1].commitLSN
        invariant DecodeAll(all[..n], tables) == Ok(changes)
        invariant n > 1 ==> DecodeAll(all[..n - 1], tables).Ok? && |DecodeAll(all[..n - 1], tables).value| < Max(max)
        decreases |txs|
      {
        var tx := txs[0];
        txs := txs[1..];
        DecodeNext(all, tables, n);
        n := n + 1;
        var more := Decode(tx, tables);
        if more.Err? {
          return Faulty, n;
        }
        changes := changes + more.value;
        ackLSN := tx.commitLSN;
      }
      return Batch(changes, ackLSN), n;
    }

    /** Apply to each sink in turn, stopping at the first that refuses. */
    method ApplyAll(sinks: seq<bool>) returns (accepted: nat)
      ensures accepted <= |sinks| && (forall i :: 0 <= i < accepted ==> sinks[i])
      ensures accepted < |sinks| ==> !sinks[accepted]
    {
      accepted := 0;
      while accepted < |sinks| && sinks[accepted]
        invariant accepted <= |sinks| && forall i :: 0 <= i < accepted ==> sinks[i]
      {
        accepted := accepted + 1;
      }
    }

    /** Fetch, apply, acknowledge; and what Run does with a failure. */
    method Step(answer: Answer) returns (handled: nat, ok: bool, ghost e: Event)
      requires Valid() && running
      modifies this`txs, this`attempt, this`running, this`acked, this`applied
      ensures Valid() && Here() == Next(maxRetry, old(Here()), e)
      ensures old(txs) == [] ==> e == (if answer.up then Idle else StreamDown) && ok == answer.up && handled == 0
      ensures old(txs) != [] ==>
        && e.Step? && 0 < e.n <= |old(txs)| && txs == old(txs)[e.n..]
        && e.outcome == OutcomeOf(DecodeAll(old(txs)[..e.n], tables), answer)
        && (ok <==> e.outcome == Committed)
        && handled == if ok then |DecodeAll(old(txs)[..e.n], tables).value| else 0
    {
      hide DecodeAll, Range;
      var r, n := Fetch(batch);
      if r.Nothing? {
        if !answer.up {
          Fail();
          return 0, false, StreamDown;
        }
        attempt := 0;
        return 0, true, Idle;
      }
      e := Event.Step(n, OutcomeOf(DecodeAll(old(txs)[..n], tables), answer));
      if r.Faulty? {
        Fail();
        return 0, false, e;
      }
      ok := Deliver(r.changes, answer, n);
      handled := if ok then |r.changes| else 0;
    }

    /** Applies a fetched batch and acknowledges it; the batch is out of the buffer either way. */
    method Deliver(changes: seq<Change>, answer: Answer, ghost n: nat) returns (ok: bool)
      requires Valid() && running && 0 < n && n + |txs| <= |log|
      modifies this`attempt, this`running, this`acked, this`applied
      ensures var before := old(Here()).(head := old(Here()).head - n);
        && Valid() && Here() == Next(maxRetry, before, Event.Step(n, OutcomeOf(Ok(changes), answer)))
        && (ok <==> OutcomeOf(Ok(changes), answer) == Committed)
    {
      hide Range;
      if |changes| > 0 {
        var accepted := ApplyAll(answer.sinks);
        if accepted < |answer.sinks| {
          Fail();
          return false;
        }
      }
      applied := applied + Range(|log| - |txs| - n, |log| - |txs|);
      if !answer.commits {
        Fail();
        return false;
      }
      acked := |log| - |txs|;
      attempt := 0;
      return true;
    }

    /**
      Pumps through what the world does, turn by turn, until the attempt budget runs out. Every
      such run is a run of the state machine, so what holds of all of those holds of this.
     */
    method Run(turns: seq<Turn>) returns (ghost events: seq<Event>)
      requires Valid() && running
      modifies this
      ensures Valid() && Here() == After(maxRetry, old(Here()), events)
      ensures old(log) <= log && (running ==> |events| >= |turns|)
    {
      hide Next, DecodeAll, OutcomeOf;
      events := [];
      var i := 0;
      while i < |turns| && running
        invariant Valid() && i <= |turns| && i <= |events|
        invariant Here() == After(maxRetry, old(Here()), events) && old(log) <= log
      {
        var arrivals := turns[i].arrivals;
        for j := 0 to |arrivals|
          invariant Valid() && running && i <= |events|
          invariant Here() == After(maxRetry, old(Here()), events) && old(log) <= log
        {
          AfterSnoc(maxRetry, old(Here()), events, Arrive);
          Receive(arrivals[j]);
          events := events + [Arrive];
        }
        var n, ok, e := Step(turns[i].answer);
        AfterSnoc(maxRetry, old(Here()), events, e);
        events := events + [e];
        i := i + 1;
      }
    }

    method Fail()
      modifies this`attempt, this`running
      ensures attempt == old(attempt) + 1
      ensures running == !(maxRetry > 0 && old(attempt) + 1 >= maxRetry)
    {
      attempt := attempt + 1;
      running := !(maxRetry > 0 && attempt >= maxRetry);
    }
  }

  function Max(max: nat): nat {
    if max == 0 then 1 else max
  }

  lemma DecodeNext(all: seq<SourceTx>, tables: map<string, string>, n: nat)
    requires n < |all|
    ensures DecodeAll(all[..n + 1], tables) ==
            match DecodeAll(all[..n], tables)
            case Err(e) => Err(e)
            case Ok(out) =>
              match Decoded(all[n], tables)
              case Err(e) => Err(e)
              case Ok(more) => Ok(out + more)
    ensures n == 0 ==> DecodeAll(all[..n], tables) == Ok([])
  {
    assert all[..n + 1][..n] == all[..n];
  }

  lemma DecodeSingle(tx: SourceTx, tables: map<string, string>)
    ensures [tx][..1] == [tx] && DecodeAll([tx], tables) == Decoded(tx, tables)
  {
    DecodeNext([tx], tables, 0);
    assert [tx][..1] == [tx] && [tx][..0] == [];
    if Decoded(tx, tables).Ok? {
      assert [] + Decoded(tx, tables).value == Decoded(tx, tables).value;
    }
  }

  lemma OneTaken(tx: SourceTx, tables: map<string, string>, answer: Answer)
    requires Decoded(tx, tables).Ok? && |answer.sinks| == 1 && answer.commits
    requires Decoded(tx, tables).value != []
    ensures OutcomeOf(DecodeAll([tx][..1], tables), answer) == if answer.sinks[0] then Committed else NotApplied
  {
    hide DecodeAll, Decoded;
    DecodeSingle(tx, tables);
  }

  lemma RetryGoesOn(maxRetry: nat)
    requires maxRetry != 1
    ensures Next(maxRetry, START, Arrive).running
    ensures Next(maxRetry, Next(maxRetry, START, Arrive), Event.Step(1, NotApplied)).running
  {
  }

  /** One transaction arrives and is handled on its own, by one sink. */
  method HandleOne(s: Session, tx: SourceTx, accepts: bool)
    requires s.Valid() && s.running && s.txs == [] && Decoded(tx, s.tables).Ok? && Decoded(tx, s.tables).value != []
    modifies s
    ensures s.Valid() && s.txs == [] && s.log == old(s.log) + [tx]
    ensures s.Here() == Next(s.maxRetry, Next(s.maxRetry, old(s.Here()), Arrive),
                             Event.Step(1, if accepts then Committed else NotApplied))
  {
    hide Decoded, DecodeAll, Next, OutcomeOf;
    s.Receive(tx);
    assert s.txs == [tx];
    OneTaken(tx, s.tables, Answer([accepts], true, true));
    var n, ok, e := s.Step(Answer([accepts], true, true));
    assert e.n == 1;
  }

  /** With any budget but one attempt, the pump itself confirms past a transaction no sink kept. */
  method LoseTransaction(tables: map<string, string>, maxRetry: nat, a: SourceTx, b: SourceTx) returns (s: Session)
    requires maxRetry != 1
    requires Decoded(a, tables).Ok? && Decoded(a, tables).value != []
    requires Decoded(b, tables).Ok? && Decoded(b, tables).value != []
    ensures fresh(s) && s.Valid() && s.log == [a, b] && s.acked == 2 && 0 !in s.applied
  {
    hide Decoded, Next, Safe;
    s := new Session(tables, maxRetry, 500);
    RetryGoesOn(maxRetry);
    HandleOne(s, a, false);
    HandleOne(s, b, true);
    AfterFour(maxRetry, START, Arrive, Event.Step(1, NotApplied), Arrive, Event.Step(1, Committed));
    RetryLoses(maxRetry);
  }

  /** A relation configured only under its qualified name is mirrored, by that entry. */
  lemma QualifiedIsMirrored(row: map<string, string>, tx: SourceTx)
    requires "id" in row && row["id"] == "7" && tx.changes == [Message("public", "docs", Some(Insert), Some(row), None)]
    ensures var r := Decoded(tx, map["public.docs" := "id"]);
      r.Ok? && |r.value| == 1 && r.value[0].key == "7" && r.value[0].row == row
  {
    var tables := map["public.docs" := "id"];
    assert "public" + "." + "docs" == "public.docs";
    assert KeyColumn(tables, "public", "docs") == Some("id");
    hide LSNVersion;
    var c := DecodeMessage(tx.changes[0], tx, tables).value.value;
    assert DecodeFirst(tx, tables, 0) == Ok([]);
    assert DecodeFirst(tx, tables, 1) == Ok([] + [c]);
  }
}
