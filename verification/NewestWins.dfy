/** A store that keeps, of the writes that sort alike, the one with the highest version. */
module NewestWins {
  import opened Wrappers

  /** What a sorting key shows after the writes: the highest version, the later of two that tie. */
  function Newest<T, K(==)>(sort: T -> K, version: T -> int, writes: seq<T>, key: K): Option<T> {
    if writes == [] then None
    else
      var last := writes[|writes| - 1];
      var rest := Newest(sort, version, writes[..|writes| - 1], key);
      if sort(last) == key && (rest.None? || version(last) >= version(rest.value)) then Some(last) else rest
  }

  lemma NewestOfTwo<T, K>(sort: T -> K, version: T -> int, a: T, b: T, key: K)
    ensures Newest(sort, version, [a, b], key) ==
            if sort(b) == key && (sort(a) != key || version(b) >= version(a)) then Some(b)
            else if sort(a) == key then Some(a) else None
  {
    assert [a, b][..1] == [a] && [a][..0] == [];
    assert Newest(sort, version, [a], key) == if sort(a) == key then Some(a) else None;
  }

  ghost function Written<T(!new)>(writes: seq<T>): set<T> {
    set w | w in writes
  }

  /** The view is one of the writes that sort there, and none of those is newer. */
  lemma {:induction false} NewestIsHighest<T(!new), K>(sort: T -> K, version: T -> int, writes: seq<T>, key: K)
    ensures match Newest(sort, version, writes, key)
      case None => forall w :: w in Written(writes) ==> sort(w) != key
      case Some(v) => v in Written(writes) && sort(v) == key
                      && forall w :: w in Written(writes) && sort(w) == key ==> version(w) <= version(v)
  {
    if writes != [] {
      var (rest, last) := (writes[..|writes| - 1], writes[|writes| - 1]);
      NewestIsHighest(sort, version, rest, key);
      assert writes == rest + [last];
      assert forall w :: w in Written(writes) <==> w in Written(rest) || w == last;
      hide Written;
    }
  }

  ghost predicate Top<T(!new), K>(sort: T -> K, version: T -> int, all: set<T>, w: T) {
    w in all && forall x :: x in all && sort(x) == sort(w) ==> version(x) <= version(w)
  }

  /** Two different writes at the highest version of the key. */
  ghost predicate Contested<T(!new), K>(sort: T -> K, version: T -> int, all: set<T>, key: K) {
    exists a, b :: Top(sort, version, all, a) && Top(sort, version, all, b) && a != b && sort(a) == sort(b) == key
  }

  /** Delivered in whatever order and however often, the same writes show the same. */
  ghost predicate SetDetermined<T(!new), K>(sort: T -> K, version: T -> int, all: set<T>, key: K) {
    forall a: seq<T>, b: seq<T> :: Written(a) == all && Written(b) == all ==>
      Newest(sort, version, a, key) == Newest(sort, version, b, key)
  }

  lemma NewestBySet<T(!new), K>(sort: T -> K, version: T -> int, a: seq<T>, b: seq<T>, key: K)
    requires Written(a) == Written(b) && !Contested(sort, version, Written(a), key)
    ensures Newest(sort, version, a, key) == Newest(sort, version, b, key)
  {
    NewestIsHighest(sort, version, a, key);
    NewestIsHighest(sort, version, b, key);
    hide Newest, Written;
    if Newest(sort, version, a, key).Some? {
      var (v, w) := (Newest(sort, version, a, key).value, Newest(sort, version, b, key).value);
      assert Top(sort, version, Written(a), v) && Top(sort, version, Written(a), w);
    }
  }

  lemma Enumerated<T(!new)>(all: set<T>) returns (s: seq<T>)
    ensures Written(s) == all
  {
    s := [];
    var left := all;
    while left != {}
      invariant left <= all && Written(s) == all - left
    {
      var w :| w in left;
      assert Written(s + [w]) == Written(s) + {w};
      s := s + [w];
      left := left - {w};
    }
  }

  /** A highest write delivered last is what shows. */
  lemma TopLast<T(!new), K>(sort: T -> K, version: T -> int, s: seq<T>, w: T)
    requires Top(sort, version, Written(s), w)
    ensures Newest(sort, version, s + [w], sort(w)) == Some(w) && Written(s + [w]) == Written(s)
  {
    NewestIsHighest(sort, version, s, sort(w));
    assert (s + [w])[..|s|] == s;
  }

  /** The view is a function of the set of writes exactly when the key is not contested. */
  lemma NewestExact<T(!new), K>(sort: T -> K, version: T -> int, all: set<T>, key: K)
    ensures SetDetermined(sort, version, all, key) <==> !Contested(sort, version, all, key)
  {
    if Contested(sort, version, all, key) {
      var a, b :| Top(sort, version, all, a) && Top(sort, version, all, b) && a != b && sort(a) == sort(b) == key;
      var s := Enumerated(all);
      TopLast(sort, version, s, a);
      TopLast(sort, version, s, b);
      hide Newest, Written;
      assert Newest(sort, version, s + [a], key) != Newest(sort, version, s + [b], key);
    } else {
      forall a: seq<T>, b: seq<T> | Written(a) == all && Written(b) == all
        ensures Newest(sort, version, a, key) == Newest(sort, version, b, key)
      {
        NewestBySet(sort, version, a, b, key);
      }
    }
  }
}
