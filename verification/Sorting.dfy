/** Python's list.sort with an offset comparison. */
module Sorting {

  predicate SortedBy<T>(key: T -> int, s: seq<T>) {
    forall i, j :: 0 <= i < j < |s| ==> key(s[i]) <= key(s[j])
  }

  function Insert<T>(key: T -> int, s: seq<T>, x: T): seq<T> {
    if s == [] then [x]
    else if key(s[0]) <= key(x) then [s[0]] + Insert(key, s[1..], x)
    else [x] + s
  }

  function SortBy<T>(key: T -> int, s: seq<T>): seq<T> {
    if s == [] then [] else Insert(key, SortBy(key, s[..|s| - 1]), s[|s| - 1])
  }

  lemma SortedCons<T>(key: T -> int, x: T, s: seq<T>)
    requires SortedBy(key, s) && forall k :: 0 <= k < |s| ==> key(x) <= key(s[k])
    ensures SortedBy(key, [x] + s)
  {
    forall i, j | 0 <= i < j < |[x] + s| ensures key(([x] + s)[i]) <= key(([x] + s)[j]) {
      assert ([x] + s)[j] == s[j - 1];
      if i > 0 { assert ([x] + s)[i] == s[i - 1]; }
    }
  }

  lemma {:induction false} InsertSorts<T>(key: T -> int, s: seq<T>, x: T)
    requires SortedBy(key, s)
    ensures SortedBy(key, Insert(key, s, x))
    ensures multiset(Insert(key, s, x)) == multiset(s) + multiset{x}
  {
    if s != [] {
      assert s == [s[0]] + s[1..];
      if key(s[0]) <= key(x) {
        InsertSorts(key, s[1..], x);
        var r := Insert(key, s[1..], x);
        forall k | 0 <= k < |r| ensures key(s[0]) <= key(r[k]) {
          assert r[k] in multiset(r);
          assert r[k] == x || r[k] in s[1..];
        }
        SortedCons(key, s[0], r);
      } else {
        SortedCons(key, x, s);
      }
    }
  }

  lemma {:induction false} SortBySorts<T>(key: T -> int, s: seq<T>)
    ensures SortedBy(key, SortBy(key, s))
    ensures multiset(SortBy(key, s)) == multiset(s)
    ensures |SortBy(key, s)| == |s|
    ensures forall x :: x in SortBy(key, s) <==> x in s
  {
    if s != [] {
      var n := |s| - 1;
      assert s == s[..n] + [s[n]];
      SortBySorts(key, s[..n]);
      InsertSorts(key, SortBy(key, s[..n]), s[n]);
    }
    assert |multiset(SortBy(key, s))| == |multiset(s)|;
    forall x ensures x in SortBy(key, s) <==> x in s {
      assert x in s <==> x in multiset(s);
      assert x in SortBy(key, s) <==> x in multiset(SortBy(key, s));
    }
  }

  /** The elements with this key, in order. */
  function With<T>(key: T -> int, s: seq<T>, v: int): seq<T> {
    if s == [] then [] else (if key(s[0]) == v then [s[0]] else []) + With(key, s[1..], v)
  }

  lemma WithFirst<T>(key: T -> int, x: T, s: seq<T>, v: int)
    ensures With(key, [x] + s, v) == (if key(x) == v then [x] else []) + With(key, s, v)
  {
    assert ([x] + s)[1..] == s;
  }

  lemma {:induction false} WithLast<T>(key: T -> int, s: seq<T>, x: T, v: int)
    ensures With(key, s + [x], v) == With(key, s, v) + if key(x) == v then [x] else []
  {
    hide With;
    if s == [] {
      NothingWith(key, v);
      WithFirst(key, x, [], v);
      assert [x] + [] == s + [x];
    } else {
      WithLast(key, s[1..], x, v);
      WithFirst(key, s[0], s[1..], v);
      WithFirst(key, s[0], s[1..] + [x], v);
      assert [s[0]] + s[1..] == s && [s[0]] + (s[1..] + [x]) == s + [x];
    }
  }

  lemma NothingWith<T>(key: T -> int, v: int)
    ensures With(key, [], v) == []
  {
  }

  lemma {:induction false} WithNone<T>(key: T -> int, s: seq<T>, v: int)
    requires forall k :: 0 <= k < |s| ==> key(s[k]) > v
    ensures With(key, s, v) == []
  {
    if s != [] { WithNone(key, s[1..], v); }
  }

  lemma {:induction false} InsertStable<T>(key: T -> int, s: seq<T>, x: T, v: int)
    requires SortedBy(key, s)
    ensures With(key, Insert(key, s, x), v) == With(key, s, v) + if key(x) == v then [x] else []
  {
    hide With;
    if s != [] && key(s[0]) <= key(x) {
      InsertStable(key, s[1..], x, v);
      WithFirst(key, s[0], s[1..], v);
      WithFirst(key, s[0], Insert(key, s[1..], x), v);
      assert [s[0]] + s[1..] == s;
    } else {
      InsertFirst(key, s, x);
      WithFirst(key, x, s, v);
      if key(x) == v {
        forall k | 0 <= k < |s| ensures key(s[k]) > v { assert k > 0 ==> key(s[0]) <= key(s[k]); }
        WithNone(key, s, v);
      }
    }
  }

  lemma InsertFirst<T>(key: T -> int, s: seq<T>, x: T)
    requires s == [] || key(s[0]) > key(x)
    ensures Insert(key, s, x) == [x] + s
  {
  }

  /** Elements with equal keys keep their order. */
  lemma {:induction false} SortByStable<T>(key: T -> int, s: seq<T>, v: int)
    ensures With(key, SortBy(key, s), v) == With(key, s, v)
  {
    if s != [] {
      var n := |s| - 1;
      SortByStable(key, s[..n], v);
      SortBySorts(key, s[..n]);
      InsertStable(key, SortBy(key, s[..n]), s[n], v);
      WithLast(key, s[..n], s[n], v);
      assert s[..n] + [s[n]] == s;
    }
  }
}
