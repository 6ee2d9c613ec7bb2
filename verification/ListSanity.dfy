/** LinkedList.h: debugAssertIsSane, on any finite graph of elements whatever their pointers. */
module ListSanity {
  import opened Basics
  import opened FiniteWalk
  import opened LinkedList

  ghost predicate Graph(g: set<Element>)
    reads g
  {
    forall e :: e in g ==> e.next in g && e.prev in g
  }

  ghost function Nexts(g: set<Element>): map<Element, Element>
    reads g
  {
    map e | e in g :: e.next
  }

  ghost function Prevs(g: set<Element>): map<Element, Element>
    reads g
  {
    map e | e in g :: e.prev
  }

  /** next goes round r, from s back to s, over elements that are no sentinels. */
  ghost predicate Forward(r: seq<Element>, s: Element)
    reads r
  {
    && r != [] && r[0] == s && Distinct(r)
    && (forall i :: 0 <= i < |r| ==> r[i].next == After(r, i))
    && (forall i :: 0 < i < |r| ==> !r[i].isSentinel)
  }

  /** prev goes back along r, except that of a sentinel with elements behind it. */
  ghost predicate Backward(r: seq<Element>)
    reads r
  {
    && (forall i :: 0 < i < |r| ==> r[i].prev == r[i - 1])
    && (|r| == 1 ==> r[0].prev == r[0])
  }

  ghost predicate SaneRing(r: seq<Element>, s: Element)
    reads r
  {
    Ring(r) && r[0] == s && forall i :: 0 < i < |r| ==> !r[i].isSentinel
  }

  /** What the three kinds of assertion amount to. */
  ghost predicate Passes(g: set<Element>, s: Element, r: seq<Element>)
    requires Graph(g) && s in g
    reads g, r
  {
    Forward(r, s) && Backward(r) && ComesBack(Prevs(g), s)
  }

  // ---------- the two loops against cycles ----------

  /** Slow and fast at the same element, with the sentinel not seen yet: it never will be. */
  lemma CaughtIn<T>(f: map<T, T>, s: T, t: nat)
    requires Closed(f) && s in f && forall k :: 1 <= k <= 2 * t + 3 ==> Walk(f, s, k) != s
    requires Walk(f, s, 1 + t) == Walk(f, s, 2 + 2 * t) || Walk(f, s, 1 + t) == Walk(f, s, 3 + 2 * t)
    ensures !ComesBack(f, s)
  {
    hide Walk;
    if ComesBack(f, s) {
      var q :| Returns(f, s, q);
      if Walk(f, s, 1 + t) == Walk(f, s, 2 + 2 * t) {
        SameNode(f, s, q, 1 + t, 2 + 2 * t);
      } else {
        SameNode(f, s, q, 1 + t, 3 + 2 * t);
      }
    }
  }

  method NoCycleForward(s: Element, ghost g: set<Element>) returns (ok: bool)
    requires Graph(g) && s in g
    ensures ok <==> ComesBack(Nexts(g), s)
  {
    ghost var f := Nexts(g);
    ghost var p := Meet(f, s);
    var slow, fast1, fast2 := s.next, s.next.next, s.next.next.next;
    ghost var t: nat := 0;
    assert Walk(f, s, 0) == s;
    assert Walk(f, s, 1) == s.next;
    assert Walk(f, s, 2) == s.next.next;
    while slow != s && fast1 != s && fast2 != s
      invariant slow == Walk(f, s, 1 + t) && fast1 == Walk(f, s, 2 + 2 * t) && fast2 == Walk(f, s, 3 + 2 * t)
      invariant t == 0 || forall k :: 1 <= k <= 2 * t + 1 ==> Walk(f, s, k) != s
      invariant t < p
      decreases p - t
    {
      if slow == fast1 || slow == fast2 {
        CaughtIn(f, s, t);
        return false;
      }
      assert t + 1 != p;
      slow := slow.next;
      fast1 := fast2.next;
      fast2 := fast1.next;
      assert Walk(f, s, 4 + 2 * t) == fast1;
      t := t + 1;
    }
    assert Returns(f, s, 1 + t) || Returns(f, s, 2 + 2 * t) || Returns(f, s, 3 + 2 * t);
    ok := true;
  }

  method NoCycleBackward(s: Element, ghost g: set<Element>) returns (ok: bool)
    requires Graph(g) && s in g
    ensures ok <==> ComesBack(Prevs(g), s)
  {
    ghost var f := Prevs(g);
    ghost var p := Meet(f, s);
    var slow, fast1, fast2 := s.prev, s.prev.prev, s.prev.prev.prev;
    ghost var t: nat := 0;
    assert Walk(f, s, 0) == s;
    assert Walk(f, s, 1) == s.prev;
    assert Walk(f, s, 2) == s.prev.prev;
    while slow != s && fast1 != s && fast2 != s
      invariant slow == Walk(f, s, 1 + t) && fast1 == Walk(f, s, 2 + 2 * t) && fast2 == Walk(f, s, 3 + 2 * t)
      invariant t == 0 || forall k :: 1 <= k <= 2 * t + 1 ==> Walk(f, s, k) != s
      invariant t < p
      decreases p - t
    {
      if slow == fast1 || slow == fast2 {
        CaughtIn(f, s, t);
        return false;
      }
      assert t + 1 != p;
      slow := slow.prev;
      fast1 := fast2.prev;
      fast2 := fast1.prev;
      assert Walk(f, s, 4 + 2 * t) == fast1;
      t := t + 1;
    }
    assert Returns(f, s, 1 + t) || Returns(f, s, 2 + 2 * t) || Returns(f, s, 3 + 2 * t);
    ok := true;
  }

  // ---------- the whole check ----------

  lemma {:induction false} ForwardIsWalk(g: set<Element>, r: seq<Element>, s: Element, k: nat)
    requires Graph(g) && s in g && Forward(r, s) && k <= |r|
    ensures Walk(Nexts(g), s, k) == if k == |r| then s else r[k]
  {
    if k > 0 { ForwardIsWalk(g, r, s, k - 1); }
  }

  /** What has been passed before coming back to s is a ring. */
  lemma WalkIsForward(g: set<Element>, r: seq<Element>, s: Element)
    requires Graph(g) && s in g && r != [] && Walk(Nexts(g), s, |r|) == s
    requires forall i :: 0 <= i < |r| ==> r[i] == Walk(Nexts(g), s, i)
    requires forall i :: 0 < i < |r| ==> r[i] != s && !r[i].isSentinel
    ensures Forward(r, s)
  {
    var f := Nexts(g);
    forall i, j | 0 <= i < j < |r| ensures r[i] != r[j] {
      if r[i] == r[j] { SameNode(f, s, |r|, i, j); }
    }
    forall i | 0 <= i < |r| ensures r[i].next == After(r, i) { assert Walk(f, s, i + 1) == r[i].next; }
  }

  lemma SentinelOnTheWay(g: set<Element>, r: seq<Element>, r': seq<Element>, s: Element)
    requires Graph(g) && s in g && r != []
    requires forall i :: 0 < i < |r| ==> Walk(Nexts(g), s, i) != s
    requires Walk(Nexts(g), s, |r|) != s && Walk(Nexts(g), s, |r|).isSentinel
    ensures !Forward(r', s)
  {
    if Forward(r', s) {
      var n := |r'|;
      ForwardIsWalk(g, r', s, n);
      if n > |r| { ForwardIsWalk(g, r', s, |r|); }
    }
  }

  lemma OneWay(g: set<Element>, r: seq<Element>, r': seq<Element>, s: Element)
    requires Graph(g) && s in g && Forward(r, s) && Forward(r', s) && |r| <= |r'|
    ensures r == r'
  {
    ForwardIsWalk(g, r, s, |r|);
    ForwardIsWalk(g, r', s, |r|);
    forall k | 0 <= k < |r| ensures r[k] == r'[k] { ForwardIsWalk(g, r, s, k); ForwardIsWalk(g, r', s, k); }
  }

  lemma NotForward(g: set<Element>, r: seq<Element>, s: Element)
    requires Graph(g) && s in g && !ComesBack(Nexts(g), s)
    ensures !Forward(r, s)
  {
    if Forward(r, s) {
      ForwardIsWalk(g, r, s, |r|);
      assert Returns(Nexts(g), s, |r|);
    }
  }

  /** The loop over the elements; q pointers on, the walk is back. */
  method OneSentinel(s: Element, ghost g: set<Element>, ghost q: nat) returns (ok: bool, ghost r: seq<Element>)
    requires Graph(g) && s in g && Returns(Nexts(g), s, q)
    ensures ok ==> Forward(r, s)
    ensures !ok ==> forall r' :: !Forward(r', s)
  {
    var elem := s.next;
    r := [s];
    assert Walk(Nexts(g), s, 0) == s;
    assert Walk(Nexts(g), s, 1) == s.next;
    while elem != s
      invariant r != [] && elem == Walk(Nexts(g), s, |r|) && |r| <= q
      invariant forall i :: 0 <= i < |r| ==> r[i] == Walk(Nexts(g), s, i)
      invariant forall i :: 0 < i < |r| ==> r[i] != s && !r[i].isSentinel
      decreases q - |r|
    {
      if elem.isSentinel {
        forall r' ensures !Forward(r', s) { SentinelOnTheWay(g, r, r', s); }
        return false, r;
      }
      assert Walk(Nexts(g), s, |r| + 1) == elem.next;
      r := r + [elem];
      elem := elem.next;
    }
    WalkIsForward(g, r, s);
    ok := true;
  }

  /** The loop that compares next and prev. */
  method PointersMatch(s: Element, ghost r: seq<Element>) returns (ok: bool)
    requires Forward(r, s)
    ensures ok <==> Backward(r)
  {
    var prev, cur := s, s.next;
    ghost var i := 0;
    var first := true;
    while first || cur != s
      invariant 0 <= i && (i < |r| || (!first && i == |r|))
      invariant first ==> i == 0
      invariant i < |r| ==> prev == r[i] && cur == After(r, i)
      invariant forall k :: 0 < k <= i && k < |r| ==> r[k].prev == r[k - 1]
      invariant !first && |r| == 1 ==> r[0].prev == r[0]
      invariant !first ==> i > 0 && (cur == s <==> i >= |r| - 1)
      decreases first, |r| - i
    {
      first := false;
      if cur.prev != prev || prev.next != cur { return false; }
      prev := cur;
      cur := cur.next;
      i := i + 1;
    }
    ok := true;
  }

  method DebugAssertIsSane(s: Element, ghost g: set<Element>) returns (ok: bool, ghost r: seq<Element>)
    requires Graph(g) && s in g
    ensures ok ==> Passes(g, s, r)
    ensures !ok ==> forall r' :: !Passes(g, s, r')
  {
    r := [];
    ok := NoCycleForward(s, g);
    if !ok {
      forall r' ensures !Forward(r', s) { NotForward(g, r', s); }
      return;
    }
    ok := NoCycleBackward(s, g);
    if !ok { return; }
    ghost var q: nat :| Returns(Nexts(g), s, q);
    ok, r := OneSentinel(s, g, q);
    if !ok { return; }
    ok := PointersMatch(s, r);
    if !ok {
      forall r' | Forward(r', s) ensures r' == r { if |r| <= |r'| { OneWay(g, r, r', s); } else { OneWay(g, r', r, s); } }
    }
  }

  // ---------- what it misses ----------

  lemma {:induction false} RingGoesBack(g: set<Element>, r: seq<Element>, s: Element, k: nat)
    requires Graph(g) && s in g && SaneRing(r, s) && k < |r|
    ensures Walk(Prevs(g), s, k + 1) == r[|r| - 1 - k]
  {
    if k > 0 { RingGoesBack(g, r, s, k - 1); }
    assert Walk(Prevs(g), s, 0) == s;
  }

  /** The last check stops before the sentinel's own prev: a list passes exactly if it is a ring but for that
      pointer, which may lead back into the list anywhere. */
  lemma SaneIff(g: set<Element>, s: Element, r: seq<Element>)
    requires Graph(g) && s in g
    ensures SaneRing(r, s) <==> Passes(g, s, r) && s.prev == r[|r| - 1]
  {
    if SaneRing(r, s) {
      RingGoesBack(g, r, s, |r| - 1);
      assert Returns(Prevs(g), s, |r|);
      assert Forward(r, s) && Backward(r);
    }
    if Passes(g, s, r) && s.prev == r[|r| - 1] {
      forall i | 0 <= i < |r| ensures r[i].next == After(r, i) && r[i].prev == Before(r, i) { }
    }
  }

  function Nodes(r: seq<Element>): set<Element> {
    set e | e in r
  }

  lemma RingIsGraph(r: seq<Element>)
    requires Ring(r)
    ensures Graph(Nodes(r))
  {
    hide Distinct;
    forall e | e in Nodes(r) ensures e.next in Nodes(r) && e.prev in Nodes(r) {
      var i :| 0 <= i < |r| && r[i] == e;
      InRing(r, i);
    }
  }

  /** A valid list is a sane ring, and its own elements are a graph to check it in. */
  lemma ValidIsSane(l: LinkedList)
    requires l.Valid()
    ensures var r := [l.sentinel] + l.elems;
            r[0] in Nodes(r) && Graph(Nodes(r)) && SaneRing(r, l.sentinel) && Passes(Nodes(r), l.sentinel, r)
  {
    hide Ring, Graph, Passes;
    var r := [l.sentinel] + l.elems;
    RingIsGraph(r);
    assert r[0] in Nodes(r);
    SaneIff(Nodes(r), l.sentinel, r);
  }

  /** The check passes on every valid list. */
  method ValidPasses(l: LinkedList) returns (ok: bool)
    requires l.Valid()
    ensures ok
  {
    hide Graph, Passes, SaneRing, LinkedList.Valid;
    ghost var r := [l.sentinel] + l.elems;
    ValidIsSane(l);
    assert r[0] == l.sentinel;
    ghost var r';
    ok, r' := DebugAssertIsSane(l.sentinel, Nodes(r));
    ValidIsSane(l);
  }

  /** And so in every state that a run of calls on several lists reaches. */
  method RunPasses(world: Lists, ops: seq<Op>, k: nat) returns (ok: bool)
    requires world.World() && AllAllowed(world.View(), ops) && k < |world.lists|
    requires forall n :: 0 <= n < |ops| ==> TakesFrom(ops[n], world.elements)
    modifies world.lists, world.elements, set l | l in world.lists :: l.sentinel
    ensures ok && world.World() && world.View() == ApplyAll(old(world.View()), ops)
  {
    world.Run(ops);
    ok := ValidPasses(world.lists[k]);
  }

  /** A list of a and b whose sentinel's prev skips b. */
  ghost predicate Skips(s: Element, a: Element, b: Element)
    reads s, a, b
  {
    && s != a && a != b && s != b && !a.isSentinel && !b.isSentinel
    && s.next == a && a.next == b && b.next == s
    && s.prev == a && a.prev == s && b.prev == a
  }

  lemma SkipsPasses(s: Element, a: Element, b: Element)
    requires Skips(s, a, b)
    ensures Passes({s, a, b}, s, [s, a, b])
  {
    var g := {s, a, b};
    assert Walk(Prevs(g), s, 0) == s;
    assert Walk(Prevs(g), s, 1) == a;
    assert Returns(Prevs(g), s, 2);
  }

  lemma SkipsNotSane(s: Element, a: Element, b: Element, r: seq<Element>)
    requires Skips(s, a, b)
    ensures !SaneRing(r, s)
  {
    var g := {s, a, b};
    SkipsPasses(s, a, b);
    SaneIff(g, s, r);
    if SaneRing(r, s) {
      if |r| <= 3 { OneWay(g, r, [s, a, b], s); } else { OneWay(g, [s, a, b], r, s); }
    }
  }

  /** Such a list passes, and is no ring. */
  method Missed() returns (s: Element, ok: bool)
    ensures ok && forall r :: !SaneRing(r, s)
  {
    hide Passes, SaneRing;
    s := new Element(true);
    var a := new Element(false);
    var b := new Element(false);
    s.next, a.next, b.next := a, b, s;
    s.prev, a.prev, b.prev := a, s, a;
    ghost var r;
    ok, r := DebugAssertIsSane(s, {s, a, b});
    SkipsPasses(s, a, b);
    forall r' ensures !SaneRing(r', s) { SkipsNotSane(s, a, b, r'); }
  }
}
