/** The Qdrant sink: points overwritten in place, run by run. */
module MirrorQdrant {
  import opened Wrappers
  import opened Numerals
  import opened MirrorVersions

  datatype Fault = EmbedFailed

  datatype PointId = Numeric(n: nat) | Named(s: string)
  datatype Point = Point(vector: seq<real>, payload: map<string, string>)

  type Points = map<PointId, Point>

  /** An embedder answers with a vector, with nothing to index, or with an error. */
  type Embedder = Change -> Result<seq<real>, Fault>

  /** Digits that fit a uint64 travel as a number, everything else as it is. */
  function PointID(key: string): PointId {
    if Digits(key) && DigitsValue(key) < TWO_64 then Numeric(DigitsValue(key)) else Named(key)
  }

  /** Two keys share a point exactly when they are spellings of one number. */
  lemma PointIDCollides(a: string, b: string)
    ensures PointID(a) == PointID(b) <==>
            a == b || (Digits(a) && Digits(b) && DigitsValue(a) == DigitsValue(b) < TWO_64)
    ensures PointID(a) == Named(a) || (Digits(a) && PointID(a) == Numeric(DigitsValue(a)))
  {
    hide DigitsValue;
  }

  /** The keys "7" and "07" are two rows of a text-keyed table and one point. */
  lemma PointsCollide()
    ensures PointID("7") == PointID("07") == Numeric(7)
  {
    assert "07"[..1] == "0" && "0"[..0] == "" && "7"[..0] == "";
    assert DigitsValue("0") == 0 && DigitsValue("7") == 7 && DigitsValue("07") == 7;
  }

  predicate Fails(embed: Embedder, ch: Change) {
    ch.key == "" || (ch.op != Delete && embed(ch).Err?)
  }

  /** One change on its own. An embedder that declines a row leaves the store as it is. */
  function ApplyOne(embed: Embedder, points: Points, ch: Change): Points {
    if Fails(embed, ch) then points
    else if ch.op == Delete then points - {PointID(ch.key)}
    else
      match embed(ch)
      case Ok(v) => if v == [] then points else points[PointID(ch.key) := Point(v, ch.row)]
      case Err(_) => points
  }

  function ApplyEach(embed: Embedder, points: Points, changes: seq<Change>): Points {
    if changes == [] then points
    else ApplyOne(embed, ApplyEach(embed, points, changes[..|changes| - 1]), changes[|changes| - 1])
  }

  /** Upserts land in order, a later point over an earlier one with the same id. */
  function Upserted(points: Points, more: seq<(PointId, Point)>): Points {
    if more == [] then points
    else Upserted(points, more[..|more| - 1])[more[|more| - 1].0 := more[|more| - 1].1]
  }

  /** The maximal run of one kind that starts at i. */
  ghost predicate IsRun(changes: seq<Change>, i: nat, j: nat) {
    && i < j <= |changes|
    && (forall k :: i <= k < j ==> (changes[k].op == Delete) == (changes[i].op == Delete))
    && (j < |changes| ==> (changes[j].op == Delete) != (changes[i].op == Delete))
  }

  ghost predicate NoneFail(embed: Embedder, changes: seq<Change>) {
    forall i :: 0 <= i < |changes| ==> !Fails(embed, changes[i])
  }

  /** The embedder declines every row. */
  ghost predicate NothingToIndex(embed: Embedder, changes: seq<Change>) {
    forall i :: 0 <= i < |changes| ==> embed(changes[i]) == Ok([])
  }

  lemma ApplyEachSnoc(embed: Embedder, points: Points, changes: seq<Change>, ch: Change)
    ensures ApplyEach(embed, points, changes + [ch]) == ApplyOne(embed, ApplyEach(embed, points, changes), ch)
  {
    assert (changes + [ch])[..|changes|] == changes;
  }

  lemma {:induction false} ApplyEachConcat(embed: Embedder, points: Points, a: seq<Change>, b: seq<Change>)
    ensures ApplyEach(embed, points, a + b) == ApplyEach(embed, ApplyEach(embed, points, a), b)
  {
    if b == [] {
      assert a + b == a;
    } else {
      assert (a + b)[..|a + b| - 1] == a + b[..|b| - 1];
      ApplyEachConcat(embed, points, a, b[..|b| - 1]);
    }
  }

  lemma UpsertedSnoc(points: Points, batch: seq<(PointId, Point)>, id: PointId, p: Point)
    ensures Upserted(points, batch + [(id, p)]) == Upserted(points, batch)[id := p]
  {
    assert (batch + [(id, p)])[..|batch|] == batch;
  }

  lemma RunStarts(embed: Embedder, points: Points)
    ensures NoneFail(embed, []) && NothingToIndex(embed, [])
    ensures ApplyEach(embed, points, []) == points && Upserted(points, []) == points
  {
  }

  /** One more change of an upsert run: what fails with it, what it adds, and whether it is indexed. */
  lemma RunStep(embed: Embedder, points: Points, changes: seq<Change>, i: nat)
    requires i < |changes| && changes[i].op != Delete && NoneFail(embed, changes[..i])
    ensures var (ch, vec) := (changes[i], embed(changes[i]));
      if !IsValid(ch) || vec.Err? then !NoneFail(embed, changes)
      else
        && NoneFail(embed, changes[..i + 1])
        && (NothingToIndex(embed, changes[..i + 1]) <==> NothingToIndex(embed, changes[..i]) && vec.value == [])
        && ApplyEach(embed, points, changes[..i + 1]) ==
             (var before := ApplyEach(embed, points, changes[..i]);
              if vec.value == [] then before else before[PointID(ch.key) := Point(vec.value, ch.row)])
  {
    hide PointID, ApplyEach;
    var ch := changes[i];
    assert changes[..i + 1] == changes[..i] + [ch];
    ApplyEachSnoc(embed, points, changes[..i], ch);
    if !Fails(embed, ch) {
      assert NoneFail(embed, changes[..i + 1]);
      assert changes[..i + 1][i] == ch;
      assert NothingToIndex(embed, changes[..i + 1]) ==> NothingToIndex(embed, changes[..i]) by {
        assert forall j :: 0 <= j < i ==> changes[..i][j] == changes[..i + 1][j];
      }
    }
  }

  class QdrantSink {
    const embed: Embedder
    var points: Points

    constructor (embed: Embedder, points: Points)
      ensures this.embed == embed && this.points == points
    {
      this.embed, this.points := embed, points;
    }

    /** All the points of a run at once, or none when a change or the client fails; nothing to send is no call. */
    method UpsertRun(changes: seq<Change>, up: bool) returns (ok: bool)
      requires forall k :: 0 <= k < |changes| ==> changes[k].op != Delete
      modifies this`points
      ensures ok <==> NoneFail(embed, changes) && (up || NothingToIndex(embed, changes))
      ensures points == if ok then ApplyEach(embed, old(points), changes) else old(points)
    {
      RunStarts(embed, points);
      hide ApplyEach, PointID, Upserted, NoneFail, NothingToIndex, Fails;
      assert changes[..0] == [];
      var batch: seq<(PointId, Point)> := [];
      for i := 0 to |changes|
        invariant NoneFail(embed, changes[..i])
        invariant points == old(points)
        invariant Upserted(old(points), batch) == ApplyEach(embed, old(points), changes[..i])
        invariant batch == [] <==> NothingToIndex(embed, changes[..i])
      {
        var ch := changes[i];
        RunStep(embed, old(points), changes, i);
        if !IsValid(ch) {
          return false;
        }
        var vec := embed(ch);
        if vec.Err? {
          return false;
        }
        if vec.value == [] {
          continue;
        }
        UpsertedSnoc(old(points), batch, PointID(ch.key), Point(vec.value, ch.row));
        batch := batch + [(PointID(ch.key), Point(vec.value, ch.row))];
      }
      assert changes[..|changes|] == changes;
      if batch == [] {
        return true;
      }
      if !up {
        return false;
      }
      points := Upserted(points, batch);
      return true;
    }

    method DeleteRun(changes: seq<Change>, up: bool) returns (ok: bool)
      requires forall k :: 0 <= k < |changes| ==> changes[k].op == Delete
      modifies this`points
      ensures ok <==> NoneFail(embed, changes) && (up || changes == [])
      ensures points == if ok then ApplyEach(embed, old(points), changes) else old(points)
    {
      var ids: set<PointId> := {};
      for i := 0 to |changes|
        invariant NoneFail(embed, changes[..i])
        invariant points == old(points)
        invariant old(points) - ids == ApplyEach(embed, old(points), changes[..i])
      {
        var ch := changes[i];
        assert changes[..i + 1] == changes[..i] + [ch];
        ApplyEachSnoc(embed, old(points), changes[..i], ch);
        hide ApplyEach, PointID;
        if !IsValid(ch) {
          return false;
        }
        assert old(points) - (ids + {PointID(ch.key)}) == (old(points) - ids) - {PointID(ch.key)};
        ids := ids + {PointID(ch.key)};
      }
      assert changes[..|changes|] == changes;
      if changes == [] {
        return true;
      }
      if !up {
        return false;
      }
      points := points - ids;
      return true;
    }

    /**
      Applies the batch in maximal runs of one kind; `down` are the places where the client fails a
      run that starts there. With no failure the store is the one that applying the changes singly
      leaves; otherwise it holds exactly the runs before the failing one.
     */
    method Apply(changes: seq<Change>, down: set<nat>) returns (ok: bool, ghost done: nat)
      modifies this`points
      ensures done <= |changes| && points == ApplyEach(embed, old(points), changes[..done])
      ensures NoneFail(embed, changes[..done])
      ensures ok ==> NoneFail(embed, changes)
      ensures NoneFail(embed, changes) && down == {} ==> ok
      ensures ok ==> done == |changes| && points == ApplyEach(embed, old(points), changes)
      ensures !ok ==> exists j: nat :: IsRun(changes, done, j) && (done in down || !NoneFail(embed, changes[done..j]))
    {
      var i := 0;
      while i < |changes|
        invariant 0 <= i <= |changes| && NoneFail(embed, changes[..i])
        invariant points == ApplyEach(embed, old(points), changes[..i])
      {
        var j := i;
        var del := changes[i].op == Delete;
        while j < |changes| && (changes[j].op == Delete) == del
          invariant i <= j <= |changes| && forall k :: i <= k < j ==> (changes[k].op == Delete) == del
        {
          j := j + 1;
        }
        assert IsRun(changes, i, j);
        assert changes[..j] == changes[..i] + changes[i..j];
        ApplyEachConcat(embed, old(points), changes[..i], changes[i..j]);
        hide ApplyEach;
        if del {
          ok := DeleteRun(changes[i..j], i !in down);
        } else {
          ok := UpsertRun(changes[i..j], i !in down);
        }
        if !ok {
          if !NoneFail(embed, changes[i..j]) {
            SomeFails(embed, changes, i, j);
          }
          return false, i;
        }
        BothPass(embed, changes, i, j);
        i := j;
      }
      assert changes[..|changes|] == changes;
      return true, i;
    }
  }

  lemma SomeFails(embed: Embedder, changes: seq<Change>, i: nat, j: nat)
    requires i <= j <= |changes| && !NoneFail(embed, changes[i..j])
    ensures !NoneFail(embed, changes)
  {
    var k :| 0 <= k < |changes[i..j]| && Fails(embed, changes[i..j][k]);
    assert changes[i + k] == changes[i..j][k];
  }

  lemma BothPass(embed: Embedder, changes: seq<Change>, i: nat, j: nat)
    requires i <= j <= |changes| && NoneFail(embed, changes[..i]) && NoneFail(embed, changes[i..j])
    ensures NoneFail(embed, changes[..j])
  {
    forall k | 0 <= k < j ensures !Fails(embed, changes[..j][k]) {
      assert changes[..j][k] == if k < i then changes[..i][k] else changes[i..j][k - i];
    }
  }

  // ------------------------------------------------------------------------ redelivery

  /** What a batch does to one point: the last change that reaches it decides, if any does. */
  datatype Effect = Untouched | Gone | Holds(p: Point)

  function EffectOf(embed: Embedder, ch: Change, id: PointId): Effect {
    if Fails(embed, ch) || PointID(ch.key) != id then Untouched
    else if ch.op == Delete then Gone
    else
      match embed(ch)
      case Ok(v) => if v == [] then Untouched else Holds(Point(v, ch.row))
      case Err(_) => Untouched
  }

  function LastEffect(embed: Embedder, changes: seq<Change>, id: PointId): Effect {
    if changes == [] then Untouched
    else
      var e := EffectOf(embed, changes[|changes| - 1], id);
      if e != Untouched then e else LastEffect(embed, changes[..|changes| - 1], id)
  }

  function Found(points: Points, id: PointId): Option<Point> {
    if id in points then Some(points[id]) else None
  }

  function Override(e: Effect, had: Option<Point>): Option<Point> {
    match e
    case Untouched => had
    case Gone => None
    case Holds(p) => Some(p)
  }

  lemma {:induction false} LastEffectDecides(embed: Embedder, points: Points, changes: seq<Change>, id: PointId)
    ensures Found(ApplyEach(embed, points, changes), id) == Override(LastEffect(embed, changes, id), Found(points, id))
  {
    hide PointID, Fails;
    if changes != [] {
      LastEffectDecides(embed, points, changes[..|changes| - 1], id);
    }
  }

  lemma {:induction false} PrefixEffect(embed: Embedder, changes: seq<Change>, i: nat, id: PointId)
    requires i <= |changes| && LastEffect(embed, changes, id) == Untouched
    ensures LastEffect(embed, changes[..i], id) == Untouched
  {
    hide EffectOf;
    if i < |changes| {
      var front := changes[..|changes| - 1];
      PrefixEffect(embed, front, i, id);
      assert front[..i] == changes[..i];
    } else {
      assert changes[..i] == changes;
    }
  }

  /** A batch applied in part, in whole or twice, and then in whole, leaves what applying it once leaves. */
  lemma RedeliveryIsInert(embed: Embedder, points: Points, changes: seq<Change>, i: nat)
    requires i <= |changes|
    ensures ApplyEach(embed, ApplyEach(embed, points, changes[..i]), changes) == ApplyEach(embed, points, changes)
  {
    var twice := ApplyEach(embed, ApplyEach(embed, points, changes[..i]), changes);
    var once := ApplyEach(embed, points, changes);
    forall id ensures Found(twice, id) == Found(once, id) {
      LastEffectDecides(embed, points, changes[..i], id);
      LastEffectDecides(embed, ApplyEach(embed, points, changes[..i]), changes, id);
      LastEffectDecides(embed, points, changes, id);
      if LastEffect(embed, changes, id) == Untouched {
        PrefixEffect(embed, changes, i, id);
      }
    }
    SameFound(twice, once);
  }

  lemma SameFound(a: Points, b: Points)
    requires forall id :: Found(a, id) == Found(b, id)
    ensures a == b
  {
    forall id ensures id in a <==> id in b {
      assert Found(a, id) == Found(b, id);
    }
    forall id | id in a ensures a[id] == b[id] {
      assert Found(a, id) == Found(b, id);
    }
  }
}
