/** Following one pointer per node through a finite graph. */
module FiniteWalk {

  ghost predicate Closed<T>(f: map<T, T>) {
    forall x :: x in f ==> f[x] in f
  }

  /** The node k pointers from x. */
  ghost function Walk<T>(f: map<T, T>, x: T, k: nat): (y: T)
    requires Closed(f) && x in f
    ensures y in f
  {
    if k == 0 then x else f[Walk(f, x, k - 1)]
  }

  lemma {:induction false} WalkOn<T>(f: map<T, T>, x: T, a: nat, b: nat)
    requires Closed(f) && x in f
    ensures Walk(f, Walk(f, x, a), b) == Walk(f, x, a + b)
  {
    if b > 0 { WalkOn(f, x, a, b - 1); }
  }

  /** The walk comes back to its start after q pointers. */
  ghost predicate Returns<T>(f: map<T, T>, x: T, q: nat)
    requires Closed(f) && x in f
  {
    q > 0 && Walk(f, x, q) == x
  }

  ghost predicate ComesBack<T>(f: map<T, T>, x: T)
    requires Closed(f) && x in f
  {
    exists q :: Returns(f, x, q)
  }

  lemma {:induction false} ReturnsAgain<T>(f: map<T, T>, x: T, q: nat, k: nat)
    requires Closed(f) && x in f && Walk(f, x, q) == x
    ensures Walk(f, x, k * q) == x
  {
    if k > 0 {
      ReturnsAgain(f, x, q, k - 1);
      WalkOn(f, x, (k - 1) * q, q);
      assert (k - 1) * q + q == k * q;
    }
  }

  /** On a walk that comes back, being at one node at times a and b means being at the start after b - a. */
  lemma SameNode<T>(f: map<T, T>, x: T, q: nat, a: nat, b: nat)
    requires Closed(f) && x in f && Returns(f, x, q) && a <= b && Walk(f, x, a) == Walk(f, x, b)
    ensures Walk(f, x, b - a) == x
  {
    var n := a * q;
    assert n >= a by { if a > 0 { assert a * q >= a * 1; } }
    ReturnsAgain(f, x, q, a);
    WalkOn(f, x, a, n - a);
    WalkOn(f, x, b, n - a);
    WalkOn(f, x, n, b - a);
  }

  /** The nodes met at times 1 to n. */
  ghost function Met<T>(f: map<T, T>, x: T, n: nat): set<T>
    requires Closed(f) && x in f
  {
    if n == 0 then {} else Met(f, x, n - 1) + {Walk(f, x, n)}
  }

  ghost predicate MetBy<T>(f: map<T, T>, x: T, n: nat, y: T)
    requires Closed(f) && x in f
  {
    exists k :: 1 <= k <= n && Walk(f, x, k) == y
  }

  lemma {:induction false} MetOrRepeats<T>(f: map<T, T>, x: T, n: nat) returns (i: nat, j: nat)
    requires Closed(f) && x in f
    ensures Met(f, x, n) <= f.Keys
    ensures forall y :: y in Met(f, x, n) ==> MetBy(f, x, n, y)
    ensures |Met(f, x, n)| == n || (1 <= i < j <= n && Walk(f, x, i) == Walk(f, x, j))
  {
    hide Walk;
    i, j := 0, 0;
    if n > 0 {
      i, j := MetOrRepeats(f, x, n - 1);
      forall y | y in Met(f, x, n) ensures MetBy(f, x, n, y) {
        if y in Met(f, x, n - 1) {
          var k :| 1 <= k <= n - 1 && Walk(f, x, k) == y;
          assert 1 <= k <= n;
        }
      }
      if |Met(f, x, n - 1)| == n - 1 && Walk(f, x, n) in Met(f, x, n - 1) {
        assert MetBy(f, x, n - 1, Walk(f, x, n));
        i :| 1 <= i <= n - 1 && Walk(f, x, i) == Walk(f, x, n);
        j := n;
      }
    }
  }

  lemma {:induction false} Periodic<T>(f: map<T, T>, x: T, i: nat, period: nat, p: nat, k: nat)
    requires Closed(f) && x in f && Walk(f, x, i) == Walk(f, x, i + period) && i <= p
    ensures Walk(f, x, p + k * period) == Walk(f, x, p)
  {
    if k > 0 {
      Periodic(f, x, i, period, p, k - 1);
      var m := (k - 1) * period;
      WalkOn(f, x, i, p - i + m);
      WalkOn(f, x, i + period, p - i + m);
      assert i + period + (p - i + m) == p + k * period;
    }
  }

  lemma {:induction false} Subset<T>(a: set<T>, b: set<T>)
    requires a <= b
    ensures |a| <= |b|
  {
    if a != {} {
      var x :| x in a;
      Subset(a - {x}, b - {x});
    }
  }

  /** In a finite graph a walk at single and one at double speed meet. */
  lemma Meet<T>(f: map<T, T>, x: T) returns (p: nat)
    requires Closed(f) && x in f
    ensures p > 0 && Walk(f, x, p) == Walk(f, x, 2 * p)
  {
    hide Walk, Met;
    var n := |f.Keys| + 1;
    var i, j := MetOrRepeats(f, x, n);
    Subset(Met(f, x, n), f.Keys);
    var d := j - i;
    assert i + d == j;
    p := i * d;
    Positive(i, d);
    Periodic(f, x, i, d, p, i);
    assert p + i * d == 2 * p;
  }

  lemma Positive(i: nat, d: nat)
    requires i > 0 && d > 0
    ensures i * d >= i
  {
  }
}
