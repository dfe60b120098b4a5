/** The order `sort.Strings` uses, and sorting into it. */
module StringOrder {
  predicate Less(a: string, b: string) {
    if b == "" then false
    else if a == "" then true
    else a[0] < b[0] || (a[0] == b[0] && Less(a[1..], b[1..]))
  }

  lemma {:induction false} LessTotal(a: string, b: string)
    ensures Less(a, b) || Less(b, a) || a == b
    ensures !(Less(a, b) && Less(b, a)) && !(Less(a, b) && a == b)
  {
    if a != "" && b != "" {
      LessTotal(a[1..], b[1..]);
      if a[0] == b[0] && a[1..] == b[1..] {
        assert a == [a[0]] + a[1..] && b == [b[0]] + b[1..];
      }
    }
  }

  lemma {:induction false} LessTransitive(a: string, b: string, c: string)
    requires Less(a, b) && Less(b, c)
    ensures Less(a, c)
  {
    if a != "" && a[0] == b[0] == c[0] {
      LessTransitive(a[1..], b[1..], c[1..]);
    }
  }

  function Elements(s: seq<string>): set<string> {
    set x | x in s
  }

  predicate Distinct(s: seq<string>) {
    forall i, j :: 0 <= i < j < |s| ==> s[i] != s[j]
  }

  predicate Sorted(s: seq<string>) {
    forall i, j :: 0 <= i < j < |s| ==> Less(s[i], s[j])
  }

  lemma SortedIsDistinct(s: seq<string>)
    requires Sorted(s)
    ensures Distinct(s)
  {
    forall i, j | 0 <= i < j < |s| ensures s[i] != s[j] {
      LessTotal(s[i], s[j]);
    }
  }

  /** Two sorted lists of the same strings are the same list. */
  lemma {:induction false} SortedUnique(a: seq<string>, b: seq<string>)
    requires Sorted(a) && Sorted(b) && Elements(a) == Elements(b)
    ensures a == b
  {
    SortedIsDistinct(a);
    SortedIsDistinct(b);
    assert forall x :: x in b <==> x in Elements(a);
    assert b != [] ==> b[0] in Elements(a);
    if a != [] {
      assert a[0] in b;
      if a[0] != b[0] {
        var i :| 0 <= i < |b| && b[i] == a[0];
        var j :| 0 <= j < |a| && a[j] == b[0];
        LessTotal(a[0], b[0]);
      }
      forall x ensures x in Elements(a[1..]) <==> x in Elements(b[1..]) {
        assert x in Elements(a[1..]) <==> x in Elements(a) && x != a[0];
        assert x in Elements(b[1..]) <==> x in Elements(b) && x != b[0];
      }
      SortedUnique(a[1..], b[1..]);
    }
  }

  /** Places x into a sorted list it does not occur in. */
  function Insert(x: string, s: seq<string>): (r: seq<string>)
    requires Sorted(s) && x !in s
    ensures Sorted(r) && Elements(r) == Elements(s) + {x} && |r| == |s| + 1
  {
    if s == [] then [x]
    else if Less(x, s[0]) then
      assert forall j :: 0 < j < |s| ==> Less(x, s[j]) by {
        forall j | 0 < j < |s| ensures Less(x, s[j]) {
          LessTransitive(x, s[0], s[j]);
        }
      }
      [x] + s
    else
      LessTotal(x, s[0]);
      var r := Insert(x, s[1..]);
      assert forall j :: 0 <= j < |r| ==> Less(s[0], r[j]) by {
        forall j | 0 <= j < |r| ensures Less(s[0], r[j]) {
          assert r[j] in Elements(r);
        }
      }
      assert Elements(s) == {s[0]} + Elements(s[1..]);
      assert Elements([s[0]] + r) == {s[0]} + Elements(r);
      [s[0]] + r
  }

  /** `sort.Strings` on distinct strings. */
  function SortStrings(s: seq<string>): (r: seq<string>)
    requires Distinct(s)
    ensures Sorted(r) && Elements(r) == Elements(s) && |r| == |s|
  {
    if s == [] then []
    else
      var r := SortStrings(s[1..]);
      assert s[0] !in Elements(s[1..]);
      assert forall y :: y in r <==> y in Elements(r);
      assert Elements(s) == {s[0]} + Elements(s[1..]);
      Insert(s[0], r)
  }

  /** The least element of a set. */
  ghost function Least(s: set<string>): (m: string)
    requires s != {}
    ensures m in s && forall x :: x in s && x != m ==> Less(m, x)
  {
    var x :| x in s;
    if s == {x} then x
    else
      var rest := s - {x};
      var m := Least(rest);
      LessTotal(x, m);
      if Less(x, m) then
        assert forall y :: y in s && y != x ==> Less(x, y) by {
          forall y | y in s && y != x ensures Less(x, y) {
            if y != m {
              LessTransitive(x, m, y);
            }
          }
        }
        x
      else m
  }

  lemma LeastUnique(s: set<string>, m: string)
    requires m in s && forall x :: x in s && x != m ==> Less(m, x)
    ensures Least(s) == m
  {
    LessTotal(m, Least(s));
  }

  lemma {:induction false} DistinctSize(s: seq<string>)
    requires Distinct(s)
    ensures |Elements(s)| == |s|
  {
    if s != [] {
      DistinctSize(s[1..]);
      assert Elements(s) == {s[0]} + Elements(s[1..]);
      assert s[0] !in Elements(s[1..]);
    }
  }

  lemma InElements(s: seq<string>)
    ensures forall x :: x in s <==> x in Elements(s)
  {
  }

  lemma ElementsCons(x: string, s: seq<string>)
    ensures Elements([x] + s) == {x} + Elements(s)
  {
  }

  lemma ElementsSnoc(s: seq<string>, x: string)
    ensures Elements(s + [x]) == Elements(s) + {x}
  {
  }

  /** The members of a set in order. */
  ghost function InOrder(s: set<string>): (r: seq<string>)
    ensures Sorted(r) && Elements(r) == s
  {
    if s == {} then []
    else
      var m := Least(s);
      var rest := InOrder(s - {m});
      assert forall j :: 0 <= j < |rest| ==> rest[j] in Elements(rest);
      ElementsCons(m, rest);
      [m] + rest
  }

  lemma InOrderDistinct(s: set<string>)
    ensures Distinct(InOrder(s)) && forall x :: x in InOrder(s) <==> x in s
  {
    SortedIsDistinct(InOrder(s));
    InElements(InOrder(s));
  }

  /** The members of a set in an arbitrary order, as ranging over a map yields its keys. */
  method ListOf(s: set<string>) returns (names: seq<string>)
    ensures Distinct(names) && Elements(names) == s
  {
    names := [];
    var left := s;
    while left != {}
      invariant Distinct(names) && left <= s && Elements(names) == s - left
    {
      var x :| x in left;
      InElements(names);
      ElementsSnoc(names, x);
      names := names + [x];
      left := left - {x};
    }
  }

  /** The keys of a map, sorted. */
  method SortedKeys(s: set<string>) returns (names: seq<string>)
    ensures names == InOrder(s)
  {
    var list := ListOf(s);
    names := SortStrings(list);
    SortedUnique(names, InOrder(s));
  }
}
