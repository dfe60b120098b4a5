/**
  The mirror against the table it mirrors. A message takes its key from the new row, so an UPDATE
  that changes the key writes the new row and retires nothing.
 */
module MirrorSource {
  import opened Wrappers
  import opened NewestWins
  import opened MirrorVersions
  import opened MirrorDelivery
  import opened MirrorClickHouse
  import opened MirrorTable

  type SourceRow = map<string, string>

  /** The source table: its rows by the value of the key column. */
  type Source = map<string, SourceRow>

  // ------------------------------------------------------------------- what a message does

  /** The key a message is decoded with. */
  ghost function Carried(m: Message, k: string): string {
    var src := if m.newRow.Some? then m.newRow else m.oldRow;
    if src.Some? && k in src.value then src.value[k] else ""
  }

  /** The key of the row before: the stream gives the old key only where it changed. */
  ghost function OldKey(m: Message, k: string): string {
    if m.oldRow.Some? && k in m.oldRow.value then m.oldRow.value[k] else Carried(m, k)
  }

  /** An UPDATE that changes the key column. */
  ghost predicate MovesKey(m: Message, k: string) {
    m.op == Some(Update) && OldKey(m, k) != Carried(m, k)
  }

  /** A message the source can have sent, its table being as it is. */
  ghost predicate Legal(src: Source, m: Message, k: string) {
    && m.op.Some? && Carried(m, k) != ""
    && match m.op.value
       case Insert => m.newRow.Some? && k in m.newRow.value && Carried(m, k) !in src
       case Update =>
         && m.newRow.Some? && k in m.newRow.value && OldKey(m, k) in src
         && (MovesKey(m, k) ==> Carried(m, k) !in src)
       case Delete => m.newRow.None? && Carried(m, k) in src
  }

  ghost function Applied(src: Source, m: Message, k: string): Source {
    match m.op
    case Some(Insert) => if m.newRow.Some? then src[Carried(m, k) := m.newRow.value] else src
    case Some(Update) => if m.newRow.Some? then (src - {OldKey(m, k)})[Carried(m, k) := m.newRow.value] else src
    case Some(Delete) => src - {Carried(m, k)}
    case None => src
  }

  ghost function SourceAfter(msgs: seq<Message>, k: string): Source {
    if msgs == [] then map[] else Applied(SourceAfter(msgs[..|msgs| - 1], k), msgs[|msgs| - 1], k)
  }

  /** A log from an empty table on. */
  ghost predicate LegalLog(msgs: seq<Message>, k: string) {
    forall i :: 0 <= i < |msgs| ==> Legal(SourceAfter(msgs[..i], k), msgs[i], k)
  }

  // ------------------------------------------------------------------- what the mirror shows

  /** The row the last message decoded with the key leaves, if it leaves one. */
  ghost function ShownFor(msgs: seq<Message>, k: string, key: string): Option<SourceRow> {
    if msgs == [] then None
    else
      var m := msgs[|msgs| - 1];
      if Carried(m, k) != key then ShownFor(msgs[..|msgs| - 1], k, key)
      else if m.op == Some(Delete) then None else m.newRow
  }

  /** The last that happened to the key is that an UPDATE moved its row to another. */
  ghost predicate LeftOver(msgs: seq<Message>, k: string, key: string) {
    if msgs == [] then false
    else
      var m := msgs[|msgs| - 1];
      if Carried(m, k) == key then false
      else (MovesKey(m, k) && OldKey(m, k) == key) || LeftOver(msgs[..|msgs| - 1], k, key)
  }

  ghost function RowAt(src: Source, key: string): Option<SourceRow> {
    if key in src then Some(src[key]) else None
  }

  lemma LegalFront(msgs: seq<Message>, k: string)
    requires LegalLog(msgs, k) && msgs != []
    ensures LegalLog(msgs[..|msgs| - 1], k) && Legal(SourceAfter(msgs[..|msgs| - 1], k), msgs[|msgs| - 1], k)
  {
    hide Legal, SourceAfter;
    var front := msgs[..|msgs| - 1];
    forall i | 0 <= i < |front| ensures Legal(SourceAfter(front[..i], k), front[i], k) {
      assert front[..i] == msgs[..i];
    }
  }

  /** The source has what the mirror shows of a key, unless the key is left over; then it has nothing. */
  lemma {:induction false} SourceHas(msgs: seq<Message>, k: string, key: string)
    requires LegalLog(msgs, k)
    ensures LeftOver(msgs, k, key) ==> ShownFor(msgs, k, key).Some? && key !in SourceAfter(msgs, k)
    ensures !LeftOver(msgs, k, key) ==> RowAt(SourceAfter(msgs, k), key) == ShownFor(msgs, k, key)
    ensures key in SourceAfter(msgs, k) ==>
      key != "" && k in SourceAfter(msgs, k)[key] && SourceAfter(msgs, k)[key][k] == key
    ensures ShownFor(msgs, k, key).Some? ==> k in ShownFor(msgs, k, key).value && ShownFor(msgs, k, key).value[k] == key
  {
    if msgs != [] {
      LegalFront(msgs, k);
      SourceHas(msgs[..|msgs| - 1], k, key);
      hide LegalLog;
    }
  }

  ghost predicate Agrees(msgs: seq<Message>, k: string, key: string) {
    ShownFor(msgs, k, key) == RowAt(SourceAfter(msgs, k), key)
  }

  ghost predicate NoneLeftOver(msgs: seq<Message>, k: string) {
    forall key :: !LeftOver(msgs, k, key)
  }

  /** The mirror agrees with the source on every key exactly when no key is left over. */
  lemma AgreesIff(msgs: seq<Message>, k: string)
    requires LegalLog(msgs, k)
    ensures (forall key :: Agrees(msgs, k, key)) <==> NoneLeftOver(msgs, k)
  {
    forall key ensures Agrees(msgs, k, key) <==> !LeftOver(msgs, k, key) {
      SourceHas(msgs, k, key);
    }
    hide Agrees, LeftOver, LegalLog;
    if !NoneLeftOver(msgs, k) {
      var key :| LeftOver(msgs, k, key);
      assert !Agrees(msgs, k, key);
    }
  }

  /** It does so at every moment exactly when no UPDATE changes the key column. */
  lemma AlwaysAgreesIff(msgs: seq<Message>, k: string)
    requires LegalLog(msgs, k)
    ensures (forall n :: 0 <= n <= |msgs| ==> NoneLeftOver(msgs[..n], k)) <==>
            forall i :: 0 <= i < |msgs| ==> !MovesKey(msgs[i], k)
  {
    if i :| 0 <= i < |msgs| && MovesKey(msgs[i], k) {
      assert msgs[..i + 1][..i] == msgs[..i];
      assert LeftOver(msgs[..i + 1], k, OldKey(msgs[i], k));
      assert !NoneLeftOver(msgs[..i + 1], k);
    } else {
      forall n | 0 <= n <= |msgs| ensures NoneLeftOver(msgs[..n], k) {
        forall key ensures !LeftOver(msgs[..n], k, key) {
          NeverMoved(msgs[..n], k, key);
        }
      }
    }
  }

  lemma {:induction false} NeverMoved(msgs: seq<Message>, k: string, key: string)
    requires forall i :: 0 <= i < |msgs| ==> !MovesKey(msgs[i], k)
    ensures !LeftOver(msgs, k, key)
  {
    if msgs != [] {
      NeverMoved(msgs[..|msgs| - 1], k, key);
    }
  }

  // --------------------------------------------------------------------------- decoding

  ghost function Messages(txs: seq<SourceTx>): seq<Message> {
    if txs == [] then [] else Messages(txs[..|txs| - 1]) + txs[|txs| - 1].changes
  }

  /** The mirror holds the relation of every message, by the key column k. */
  ghost predicate AllHeld(msgs: seq<Message>, tables: map<string, string>, k: string) {
    forall i :: 0 <= i < |msgs| ==> KeyedAs(tables, msgs[i].schema, msgs[i].table, k)
  }

  /** A message with an operation, a key, and a new row where there has to be one. */
  ghost predicate Sent(m: Message, k: string) {
    m.op.Some? && Carried(m, k) != "" && (m.op.value != Delete <==> m.newRow.Some?)
    && (m.newRow.Some? ==> k in m.newRow.value)
  }

  ghost predicate Decodes(m: Message, c: Change, k: string) {
    && m.op == Some(c.op) && c.key == Carried(m, k)
    && c.row == (if m.newRow.Some? then m.newRow.value else map[])
  }

  ghost predicate DecodesAll(msgs: seq<Message>, changes: seq<Change>, k: string) {
    |msgs| == |changes| && forall i :: 0 <= i < |msgs| ==> Decodes(msgs[i], changes[i], k)
  }

  lemma {:induction false} DecodesFirst(tx: SourceTx, tables: map<string, string>, k: string, n: nat)
    requires n <= |tx.changes| && AllHeld(tx.changes, tables, k)
    requires forall i :: 0 <= i < |tx.changes| ==> Sent(tx.changes[i], k)
    ensures DecodeFirst(tx, tables, n).Ok? && DecodesAll(tx.changes[..n], DecodeFirst(tx, tables, n).value, k)
  {
    if n > 0 {
      DecodesFirst(tx, tables, k, n - 1);
      var m := tx.changes[n - 1];
      assert Sent(m, k) && KeyedAs(tables, m.schema, m.table, k);
      OneDecodes(m, tx, tables, k);
      hide DecodeMessage, Sent, Decodes, KeyedAs;
      assert tx.changes[..n] == tx.changes[..n - 1] + [m];
    }
  }

  lemma OneDecodes(m: Message, tx: SourceTx, tables: map<string, string>, k: string)
    requires Sent(m, k) && KeyedAs(tables, m.schema, m.table, k)
    ensures var r := DecodeMessage(m, tx, tables); r.Ok? && r.value.Some? && Decodes(m, r.value.value, k)
  {
    KeyColumnExact(tables, m.schema, m.table);
    hide KeyColumn, LSNVersion;
  }

  lemma DecodesJoined(a: seq<Message>, b: seq<Message>, x: seq<Change>, y: seq<Change>, k: string)
    requires DecodesAll(a, x, k) && DecodesAll(b, y, k)
    ensures DecodesAll(a + b, x + y, k)
  {
    hide Decodes;
  }

  lemma {:induction false} LogDecodes(txs: seq<SourceTx>, tables: map<string, string>, k: string)
    requires AllHeld(Messages(txs), tables, k) && forall i :: 0 <= i < |Messages(txs)| ==> Sent(Messages(txs)[i], k)
    ensures DecodeAll(txs, tables).Ok? && DecodesAll(Messages(txs), DecodeAll(txs, tables).value, k)
  {
    if txs != [] {
      var (front, last) := (txs[..|txs| - 1], txs[|txs| - 1]);
      var n := |Messages(front)|;
      assert forall i :: 0 <= i < n ==> Messages(txs)[i] == Messages(front)[i];
      assert forall i :: 0 <= i < |last.changes| ==> Messages(txs)[n + i] == last.changes[i];
      LogDecodes(front, tables, k);
      DecodesFirst(last, tables, k, |last.changes|);
      assert last.changes[..|last.changes|] == last.changes;
      hide DecodeFirst, DecodesAll, Messages;
      DecodesJoined(Messages(front), last.changes, DecodeAll(front, tables).value, Decoded(last, tables).value, k);
    }
  }

  // ------------------------------------------------------------------------- in commit order

  ghost predicate Committed(txs: seq<SourceTx>) {
    && (forall i :: 0 <= i < |txs| ==> txs[i].commitLSN < TWO_63)
    && (forall i, j :: 0 <= i < j < |txs| ==> txs[i].commitLSN < txs[j].commitLSN)
  }

  ghost predicate Rising(changes: seq<Change>) {
    forall i, j :: 0 <= i < j < |changes| ==> changes[i].version <= changes[j].version
  }

  lemma {:induction false} LogRises(txs: seq<SourceTx>, tables: map<string, string>)
    requires Committed(txs) && DecodeAll(txs, tables).Ok?
    ensures Rising(DecodeAll(txs, tables).value)
    ensures txs != [] ==> forall i :: 0 <= i < |DecodeAll(txs, tables).value| ==>
      DecodeAll(txs, tables).value[i].version <= LSNVersion(txs[|txs| - 1].commitLSN)
  {
    if txs != [] {
      var (front, last) := (txs[..|txs| - 1], txs[|txs| - 1]);
      LogRises(front, tables);
      DecodedIsStamped(last, tables, |last.changes|);
      LSNVersionInBand(last.commitLSN);
      if front != [] {
        LSNVersionInBand(front[|front| - 1].commitLSN);
      }
      hide DecodeFirst, LSNVersion;
    }
  }

  /** In commit order, the newest change of a key is the last. */
  lemma {:induction false} NewestIsLast(changes: seq<Change>, key: string)
    requires Rising(changes)
    ensures View(changes, key) == LastOf(changes, key)
  {
    if changes != [] {
      var front := changes[..|changes| - 1];
      NewestIsLast(front, key);
      ViewIsHighest(front, key);
    }
  }

  lemma {:induction false} LastIsShown(msgs: seq<Message>, changes: seq<Change>, k: string, key: string)
    requires DecodesAll(msgs, changes, k) && forall i :: 0 <= i < |msgs| ==> Sent(msgs[i], k)
    ensures match LastOf(changes, key)
      case None => ShownFor(msgs, k, key) == None
      case Some(c) => ShownFor(msgs, k, key) == (if c.op == Delete then None else Some(c.row))
  {
    if msgs != [] {
      LastIsShown(msgs[..|msgs| - 1], changes[..|changes| - 1], k, key);
      assert Sent(msgs[|msgs| - 1], k);
    }
  }

  // --------------------------------------------------------------- what a FINAL read gives

  /** The row without the columns the mirror adds. */
  ghost function Plain(t: Table, row: Row): seq<Bound>
    requires |row| == |t.cols|
  {
    seq(|row|, i requires 0 <= i < |row| => if IsBookkeeping(t.cols[i].name) then Null else row[i])
  }

  ghost function PlainOf(t: Table, row: SourceRow): seq<Bound> {
    seq(|t.cols|, i requires 0 <= i < |t.cols| =>
      if !IsBookkeeping(t.cols[i].name) && t.cols[i].name in row then Value(row[t.cols[i].name]) else Null)
  }

  lemma PlainOfChange(t: Table, c: Change)
    requires c.op != Delete
    ensures Plain(t, RowFor(t, c)) == PlainOf(t, c.row)
  {
    hide KeyValue;
  }

  /** The source's rows, as a FINAL read of the mirror would give them. */
  ghost function SourceRead(t: Table, src: Source): set<seq<Bound>> {
    set key | key in src :: PlainOf(t, src[key])
  }

  ghost function MirrorRead(t: Table, zeros: Defaults, writes: seq<Change>): set<seq<Bound>> {
    set r | r in FinalRead(t, zeros, RowsOf(t, writes)) && |r| == |t.cols| :: Plain(t, r)
  }

  /** Two rows with different values in the key column are two rows. */
  lemma KeyTells(t: Table, k: string, a: SourceRow, b: SourceRow)
    requires Derived(t, k) && k in a && k in b && a[k] != b[k]
    ensures PlainOf(t, a) != PlainOf(t, b)
  {
    var i :| 0 <= i < |t.cols| && t.cols[i].name == k;
    assert PlainOf(t, a)[i] == Value(a[k]) && PlainOf(t, b)[i] == Value(b[k]);
  }

  /** The rows that the messages of the log leave in view, one for each key that has one. */
  ghost predicate ShownAsPlain(t: Table, msgs: seq<Message>, k: string, x: seq<Bound>) {
    exists key :: ShowsAt(t, msgs, k, x, key)
  }

  ghost predicate ShowsAt(t: Table, msgs: seq<Message>, k: string, x: seq<Bound>, key: string) {
    ShownFor(msgs, k, key).Some? && PlainOf(t, ShownFor(msgs, k, key).value) == x
  }

  lemma LegalSent(msgs: seq<Message>, k: string)
    requires LegalLog(msgs, k)
    ensures forall i :: 0 <= i < |msgs| ==> Sent(msgs[i], k)
  {
    hide SourceAfter;
    forall i | 0 <= i < |msgs| ensures Sent(msgs[i], k) {
      assert Legal(SourceAfter(msgs[..i], k), msgs[i], k);
    }
  }

  ghost predicate CanonicalKeys(t: Table, msgs: seq<Message>, k: string) {
    forall i :: 0 <= i < |msgs| ==> Canonical(ColOf(t.cols, k), Carried(msgs[i], k))
  }

  lemma LogKeyedBy(t: Table, k: string, msgs: seq<Message>, writes: seq<Change>)
    requires t.orderBy == [k] && DecodesAll(msgs, writes, k) && CanonicalKeys(t, msgs, k)
    requires forall i :: 0 <= i < |msgs| ==> Sent(msgs[i], k)
    ensures KeyedBy(t, k, writes)
  {
    hide Canonical;
    forall c | c in writes ensures OwnKey(k, c) && Canonical(ColOf(t.cols, k), c.key) {
      var i :| 0 <= i < |writes| && writes[i] == c;
      assert Decodes(msgs[i], writes[i], k) && Sent(msgs[i], k);
    }
  }

  /** Of a key, the mirror shows what the last message decoded with it left. */
  lemma VisibleIsShown(msgs: seq<Message>, writes: seq<Change>, k: string, key: string)
    requires DecodesAll(msgs, writes, k) && Rising(writes) && forall i :: 0 <= i < |msgs| ==> Sent(msgs[i], k)
    ensures match Visible(writes, key)
      case None => ShownFor(msgs, k, key) == None
      case Some(c) => c in writes && c.key == key && c.op != Delete && ShownFor(msgs, k, key) == Some(c.row)
  {
    hide DecodesAll, LastOf, ShownFor, Sent, View;
    NewestIsLast(writes, key);
    LastIsShown(msgs, writes, k, key);
    ViewIsHighest(writes, key);
  }

  lemma MirrorReads(t: Table, k: string, zeros: Defaults, msgs: seq<Message>, writes: seq<Change>, x: seq<Bound>)
    requires Derived(t, k) && KeyedBy(t, k, writes) && DecodesAll(msgs, writes, k) && Rising(writes)
    requires forall i :: 0 <= i < |msgs| ==> Sent(msgs[i], k)
    ensures x in MirrorRead(t, zeros, writes) <==> ShownAsPlain(t, msgs, k, x)
  {
    MirrorIsFaithful(t, k, zeros, writes);
    hide Derived, KeyedBy, DecodesAll, Rising, Sent, ShownFor, Visible, FinalRead, RowsOf, RowFor, PlainOf, Plain;
    if x in MirrorRead(t, zeros, writes) {
      var r :| r in FinalRead(t, zeros, RowsOf(t, writes)) && |r| == |t.cols| && Plain(t, r) == x;
      var c :| c in writes && Visible(writes, c.key) == Some(c) && RowFor(t, c) == r;
      VisibleIsShown(msgs, writes, k, c.key);
      PlainOfChange(t, c);
      assert ShowsAt(t, msgs, k, x, c.key);
    }
    if ShownAsPlain(t, msgs, k, x) {
      var key :| ShowsAt(t, msgs, k, x, key);
      VisibleIsShown(msgs, writes, k, key);
      var c := Visible(writes, key).value;
      PlainOfChange(t, c);
      RowLength(t, c);
      assert RowFor(t, c) in ChangeRead(t, writes);
    }
  }

  lemma RowLength(t: Table, c: Change)
    ensures |RowFor(t, c)| == |t.cols|
  {
  }

  lemma ReadsAgree(t: Table, k: string, zeros: Defaults, msgs: seq<Message>, writes: seq<Change>)
    requires Derived(t, k) && LegalLog(msgs, k)
    requires forall x :: x in MirrorRead(t, zeros, writes) <==> ShownAsPlain(t, msgs, k, x)
    ensures MirrorRead(t, zeros, writes) == SourceRead(t, SourceAfter(msgs, k)) <==> NoneLeftOver(msgs, k)
  {
    hide Derived, LegalLog, ShownFor, SourceAfter, LeftOver, MirrorRead, PlainOf;
    var src := SourceAfter(msgs, k);
    if NoneLeftOver(msgs, k) {
      forall x ensures ShownAsPlain(t, msgs, k, x) <==> x in SourceRead(t, src) {
        if ShownAsPlain(t, msgs, k, x) {
          var key :| ShowsAt(t, msgs, k, x, key);
          SourceHas(msgs, k, key);
          assert !LeftOver(msgs, k, key) && key in src && PlainOf(t, src[key]) == x;
        }
        if x in SourceRead(t, src) {
          var key :| key in src && PlainOf(t, src[key]) == x;
          SourceHas(msgs, k, key);
          assert !LeftOver(msgs, k, key);
          assert ShowsAt(t, msgs, k, x, key);
        }
      }
    } else {
      var key :| LeftOver(msgs, k, key);
      SourceHas(msgs, k, key);
      var row := ShownFor(msgs, k, key).value;
      assert ShowsAt(t, msgs, k, PlainOf(t, row), key);
      forall other | other in src ensures PlainOf(t, src[other]) != PlainOf(t, row) {
        SourceHas(msgs, k, other);
        KeyTells(t, k, src[other], row);
      }
      assert PlainOf(t, row) !in SourceRead(t, src);
    }
  }

  /**
    A derived table sorted by the key column, fed the whole log in commit order: a FINAL read gives
    the rows of the source table exactly when every key that an UPDATE moved a row away from has
    been written again since.
   */
  lemma MirrorIsSourceIff(t: Table, k: string, zeros: Defaults, txs: seq<SourceTx>, tables: map<string, string>)
    requires Derived(t, k) && t.orderBy == [k] && Committed(txs)
    requires AllHeld(Messages(txs), tables, k) && LegalLog(Messages(txs), k) && CanonicalKeys(t, Messages(txs), k)
    ensures DecodeAll(txs, tables).Ok?
    ensures MirrorRead(t, zeros, DecodeAll(txs, tables).value) == SourceRead(t, SourceAfter(Messages(txs), k)) <==>
            NoneLeftOver(Messages(txs), k)
  {
    hide Derived, Committed, LegalLog, CanonicalKeys, AllHeld, Sent, DecodesAll, Rising, KeyedBy, Messages, DecodeAll;
    var msgs := Messages(txs);
    LegalSent(msgs, k);
    LogDecodes(txs, tables, k);
    var writes := DecodeAll(txs, tables).value;
    LogRises(txs, tables);
    LogKeyedBy(t, k, msgs, writes);
    forall x ensures x in MirrorRead(t, zeros, writes) <==> ShownAsPlain(t, msgs, k, x) {
      MirrorReads(t, k, zeros, msgs, writes, x);
    }
    ReadsAgree(t, k, zeros, msgs, writes);
  }

  /** Document 7 becomes document 8: the source has one row, and 7 is left over in the mirror. */
  lemma KeyChangeLeavesRow()
    ensures var seven: SourceRow := map["id" := "7", "team" := "red"];
      var eight: SourceRow := map["id" := "8", "team" := "red"];
      var msgs := [Message("", "docs", Some(Insert), Some(seven), None),
                   Message("", "docs", Some(Update), Some(eight), Some(map["id" := "7"]))];
      && LegalLog(msgs, "id") && SourceAfter(msgs, "id") == map["8" := eight]
      && ShownFor(msgs, "id", "7") == Some(seven) && ShownFor(msgs, "id", "8") == Some(eight)
      && !NoneLeftOver(msgs, "id")
  {
    var seven: SourceRow := map["id" := "7", "team" := "red"];
    var eight: SourceRow := map["id" := "8", "team" := "red"];
    var msgs := [Message("", "docs", Some(Insert), Some(seven), None),
                 Message("", "docs", Some(Update), Some(eight), Some(map["id" := "7"]))];
    assert msgs[..1] == [msgs[0]] && [msgs[0]][..0] == [] && msgs[..0] == [];
    assert SourceAfter([msgs[0]], "id") == map["7" := seven];
    assert LeftOver(msgs, "id", "7");
    assert ShownFor([msgs[0]], "id", "7") == Some(seven);
  }
}
