/** LinkedList.h: doubly linked lists threaded through their elements, each a ring through a sentinel. */
module LinkedList {
  import opened Basics
  class Element {
    var next: Element
    var prev: Element
    const isSentinel: bool

    constructor (isSentinel: bool)
      ensures next == this && prev == this && this.isSentinel == isSentinel
    {
      next := this;
      prev := this;
      this.isSentinel := isSentinel;
    }

    /** The assertion in the source is the precondition. */
    method IsInList() returns (b: bool)
      requires (next == this) == (prev == this)
      ensures b == !Alone(this)
    {
      b := next != this;
    }

    method GetNext() returns (e: Element?)
      ensures e == if next.isSentinel then null else next
    {
      e := if next.isSentinel then null else next;
    }

    method GetPrevious() returns (e: Element?)
      ensures e == if prev.isSentinel then null else prev
    {
      e := if prev.isSentinel then null else prev;
    }

    /** This element is at i in the ring r. */
    method SetNextUnsafe(elem: Element, ghost r: seq<Element>, ghost i: nat)
      requires Ring(r) && i < |r| && r[i] == this && Alone(elem) && elem !in r
      modifies this, next, elem
      ensures Ring(InsertedAt(r, i + 1, elem))
    {
      hide InsertedAt, Distinct;
      assert r[NextPlace(|r|, i)] == next;
      OnlyPlace(r, i);
      OnlyPlace(r, NextPlace(|r|, i));
      elem.next := next;
      elem.prev := this;
      next.prev := elem;
      assert forall k :: 0 <= k < |r| ==> r[k].prev == if k == NextPlace(|r|, i) then elem else Before(r, k);
      next := elem;
      assert forall k :: 0 <= k < |r| ==> r[k].next == if k == i then elem else After(r, k);
      assert LinkedIn(r, i, elem);
      Inserted(r, i, elem);
    }

    method SetPreviousUnsafe(elem: Element, ghost r: seq<Element>, ghost i: nat)
      requires Ring(r) && i < |r| && r[i] == this && Alone(elem) && elem !in r
      modifies this, prev, elem
      ensures Ring(InsertedAt(r, if i == 0 then |r| else i, elem))
    {
      hide InsertedAt, Distinct, After, Before, NextPlace;
      ghost var p := if i == 0 then |r| - 1 else i - 1;
      PlaceBefore(r, i);
      assert r[p] == prev;
      OnlyPlace(r, i);
      OnlyPlace(r, p);
      elem.next := this;
      elem.prev := prev;
      prev.next := elem;
      assert forall k :: 0 <= k < |r| ==> r[k].next == if k == p then elem else After(r, k);
      prev := elem;
      assert forall k :: 0 <= k < |r| ==> r[k].prev == if k == NextPlace(|r|, p) then elem else Before(r, k);
      assert LinkedIn(r, p, elem);
      Inserted(r, p, elem);
    }

    method RemoveFrom(ghost r: seq<Element>, ghost i: nat)
      requires Ring(r) && 0 < i < |r| && r[i] == this
      modifies this, prev, next
      ensures Ring(r[..i] + r[i + 1..]) && Alone(this)
    {
      hide Distinct, After, Before;
      Ends(r, i);
      OnlyPlace(r, i);
      OnlyPlace(r, i - 1);
      OnlyPlace(r, NextPlace(|r|, i));
      prev.next := next;
      assert forall k :: 0 <= k < |r| && k != i ==> r[k].next == if k == i - 1 then After(r, i) else After(r, k);
      next.prev := prev;
      assert forall k :: 0 <= k < |r| && k != i ==> r[k].prev == if k == NextPlace(|r|, i) then r[i - 1] else Before(r, k);
      next := this;
      prev := this;
      assert LinkedOut(r, i);
      Removed(r, i);
    }
  }

  ghost predicate Alone(e: Element)
    reads e
  {
    e.next == e && e.prev == e
  }

  ghost function InsertedAt<T>(r: seq<T>, i: nat, e: T): seq<T>
    requires i <= |r|
  {
    r[..i] + [e] + r[i..]
  }

  lemma InsertedMembers<T>(r: seq<T>, i: nat, e: T)
    requires i <= |r|
    ensures forall x :: x in InsertedAt(r, i, e) <==> x in r || x == e
  {
    assert r == r[..i] + r[i..];
  }

  function After<T>(r: seq<T>, i: nat): T
    requires i < |r|
  {
    if i + 1 == |r| then r[0] else r[i + 1]
  }

  function Before<T>(r: seq<T>, i: nat): T
    requires i < |r|
  {
    if i == 0 then r[|r| - 1] else r[i - 1]
  }

  /** next goes round r, and prev the other way. */
  ghost predicate Ring(r: seq<Element>)
    reads r
  {
    && r != []
    && Distinct(r)
    && (forall i :: 0 <= i < |r| ==> r[i].next == After(r, i) && r[i].prev == Before(r, i))
  }

  lemma Ends(r: seq<Element>, i: nat)
    requires Ring(r) && 0 < i < |r|
    ensures r[i].next == After(r, i) == r[NextPlace(|r|, i)] && r[i].prev == r[i - 1]
  {
  }

  lemma OnlyPlace<T>(r: seq<T>, i: nat)
    requires Distinct(r) && i < |r|
    ensures forall k :: 0 <= k < |r| && k != i ==> r[k] != r[i]
  {
  }

  /** Where the place behind place i is. */
  function NextPlace(n: nat, i: nat): (j: nat)
    requires i < n
    ensures j < n
  {
    if i + 1 == n then 0 else i + 1
  }

  lemma PlaceBefore<T>(r: seq<T>, i: nat)
    requires i < |r|
    ensures var p := if i == 0 then |r| - 1 else i - 1;
            Before(r, i) == r[p] && NextPlace(|r|, p) == i && After(r, p) == r[i]
  {
  }

  /** The pointers of r once elem is linked in behind r[i]. */
  ghost predicate LinkedIn(r: seq<Element>, i: nat, elem: Element)
    requires i < |r|
    reads r, elem
  {
    && (forall k :: 0 <= k < |r| ==> r[k].next == if k == i then elem else After(r, k))
    && (forall k :: 0 <= k < |r| ==> r[k].prev == if k == NextPlace(|r|, i) then elem else Before(r, k))
    && elem.next == After(r, i) && elem.prev == r[i]
  }

  lemma Inserted(r: seq<Element>, i: nat, elem: Element)
    requires i < |r| && Distinct(r) && elem !in r && LinkedIn(r, i, elem)
    ensures Ring(InsertedAt(r, i + 1, elem))
  {
    hide InsertedAt, After, Before, Distinct;
    var r' := InsertedAt(r, i + 1, elem);
    InsertedDistinct(r, i + 1, elem);
    forall k | 0 <= k < |r'| ensures r'[k].next == After(r', k) && r'[k].prev == Before(r', k) {
      Neighbours(r, i, elem, k);
    }
  }

  lemma InsertedDistinct<T>(r: seq<T>, i: nat, e: T)
    requires i <= |r| && Distinct(r) && e !in r
    ensures Distinct(InsertedAt(r, i, e)) && |InsertedAt(r, i, e)| == |r| + 1
  {
  }

  /** What stands next to what once e stands behind r[i]. */
  lemma Neighbours<T>(r: seq<T>, i: nat, e: T, k: nat)
    requires i < |r| && k <= |r|
    ensures var r' := InsertedAt(r, i + 1, e);
            var j := if k <= i then k else k - 1;
            && |r'| == |r| + 1
            && r'[k] == (if k == i + 1 then e else r[j])
            && After(r', k) == (if k == i then e else if k == i + 1 then After(r, i) else After(r, j))
            && Before(r', k) == (if k == i + 1 then r[i] else if j == NextPlace(|r|, i) then e else Before(r, j))
  {
  }

  /** The pointers of the others once r[i] is linked out. */
  ghost predicate LinkedOut(r: seq<Element>, i: nat)
    requires 0 < i < |r|
    reads r
  {
    && (forall k :: 0 <= k < |r| && k != i ==> r[k].next == if k == i - 1 then After(r, i) else After(r, k))
    && (forall k :: 0 <= k < |r| && k != i ==> r[k].prev == if k == NextPlace(|r|, i) then r[i - 1] else Before(r, k))
  }

  lemma Removed(r: seq<Element>, i: nat)
    requires 0 < i < |r| && Distinct(r) && LinkedOut(r, i)
    ensures Ring(r[..i] + r[i + 1..])
  {
    hide After, Before;
    var r' := r[..i] + r[i + 1..];
    forall k | 0 <= k < |r'| ensures r'[k].next == After(r', k) && r'[k].prev == Before(r', k) {
      NeighboursLeft(r, i, k);
    }
  }

  /** What stands next to what once r[i] is gone. */
  lemma NeighboursLeft<T>(r: seq<T>, i: nat, k: nat)
    requires 0 < i < |r| && k < |r| - 1
    ensures var r' := r[..i] + r[i + 1..];
            var j := if k < i then k else k + 1;
            && |r'| == |r| - 1 && r'[k] == r[j]
            && After(r', k) == (if k == i - 1 then After(r, i) else After(r, j))
            && Before(r', k) == (if j == NextPlace(|r|, i) then r[i - 1] else Before(r, j))
  {
  }

  // ---------- lists ----------

  lemma InRing(r: seq<Element>, i: nat)
    requires Ring(r) && i < |r|
    ensures r[i].next in r && r[i].prev in r
    ensures |r| > 1 ==> !Alone(r[i])
  {
    assert r[i].next == r[NextPlace(|r|, i)];
  }

  lemma ConsInserted<T>(x: T, s: seq<T>, i: nat, e: T)
    requires i <= |s|
    ensures InsertedAt([x] + s, i + 1, e) == [x] + InsertedAt(s, i, e)
  {
    assert ([x] + s)[..i + 1] == [x] + s[..i];
  }

  lemma ConsRemoved<T>(x: T, s: seq<T>, i: nat)
    requires i < |s|
    ensures ([x] + s)[..i + 1] + ([x] + s)[i + 2..] == [x] + (s[..i] + s[i + 1..])
  {
    assert ([x] + s)[..i + 1] == [x] + s[..i];
  }

  class LinkedList {
    const sentinel: Element
    ghost var elems: seq<Element>

    /** The elements stand in a ring with the sentinel. */
    ghost predicate Valid()
      reads this, sentinel, elems
    {
      Ring([sentinel] + elems) && sentinel.isSentinel && forall i :: 0 <= i < |elems| ==> !elems[i].isSentinel
    }

    constructor ()
      ensures Valid() && elems == [] && fresh(sentinel)
    {
      sentinel := new Element(true);
      elems := [];
    }

    method InsertFront(elem: Element)
      requires Valid() && Alone(elem) && !elem.isSentinel
      modifies this, sentinel, sentinel.next, elem
      ensures Valid() && elems == [elem] + old(elems)
    {
      AloneOutside(elem);
      sentinel.SetNextUnsafe(elem, [sentinel] + elems, 0);
      assert InsertedAt([sentinel] + elems, 1, elem) == [sentinel] + ([elem] + elems);
      elems := [elem] + elems;
    }

    method InsertBack(elem: Element)
      requires Valid() && Alone(elem) && !elem.isSentinel
      modifies this, sentinel, sentinel.prev, elem
      ensures Valid() && elems == old(elems) + [elem]
    {
      AloneOutside(elem);
      sentinel.SetPreviousUnsafe(elem, [sentinel] + elems, 0);
      assert InsertedAt([sentinel] + elems, 1 + |elems|, elem) == [sentinel] + (elems + [elem]);
      elems := elems + [elem];
    }

    method GetFirst() returns (e: Element?)
      requires Valid()
      ensures e == if elems == [] then null else elems[0]
    {
      assert ([sentinel] + elems)[0] == sentinel;
      e := sentinel.GetNext();
    }

    method GetLast() returns (e: Element?)
      requires Valid()
      ensures e == if elems == [] then null else elems[|elems| - 1]
    {
      assert ([sentinel] + elems)[0] == sentinel;
      e := sentinel.GetPrevious();
    }

    method PopFirst() returns (e: Element?)
      requires Valid()
      modifies this, sentinel, elems
      ensures Valid()
      ensures if old(elems) == [] then e == null && elems == [] else
                e != null && old(elems) == [e] + elems && Alone(e)
    {
      hide Ring;
      e := GetFirst();
      if e != null { Take(e, 0); }
    }

    method PopLast() returns (e: Element?)
      requires Valid()
      modifies this, sentinel, elems
      ensures Valid()
      ensures if old(elems) == [] then e == null && elems == [] else
                e != null && old(elems) == elems + [e] && Alone(e)
    {
      hide Ring;
      e := GetLast();
      if e != null { Take(e, |elems| - 1); }
    }

    /** LinkedListElement::remove on the i-th element. */
    method Take(e: Element, ghost i: nat)
      requires Valid() && i < |elems| && elems[i] == e
      modifies this, sentinel, elems
      ensures Valid() && Alone(e) && elems == old(elems[..i] + elems[i + 1..])
    {
      hide Ring;
      ghost var r := [sentinel] + elems;
      InRing(r, i + 1);
      ConsRemoved(sentinel, elems, i);
      e.RemoveFrom(r, i + 1);
      elems := elems[..i] + elems[i + 1..];
    }

    /** setNext and setPrevious on the i-th element. */
    method PutBehind(at: Element, elem: Element, ghost i: nat)
      requires Valid() && i < |elems| && elems[i] == at && Alone(elem) && !elem.isSentinel
      modifies this, sentinel, elems, elem
      ensures Valid() && elems == InsertedAt(old(elems), i + 1, elem)
    {
      hide Ring;
      AloneOutside(elem);
      ghost var r := [sentinel] + elems;
      InRing(r, i + 1);
      ConsInserted(sentinel, elems, i + 1, elem);
      at.SetNextUnsafe(elem, r, i + 1);
      elems := InsertedAt(elems, i + 1, elem);
    }

    method PutBefore(at: Element, elem: Element, ghost i: nat)
      requires Valid() && i < |elems| && elems[i] == at && Alone(elem) && !elem.isSentinel
      modifies this, sentinel, elems, elem
      ensures Valid() && elems == InsertedAt(old(elems), i, elem)
    {
      hide Ring;
      AloneOutside(elem);
      ghost var r := [sentinel] + elems;
      InRing(r, i + 1);
      ConsInserted(sentinel, elems, i, elem);
      at.SetPreviousUnsafe(elem, r, i + 1);
      elems := InsertedAt(elems, i, elem);
    }

    method IsEmpty() returns (b: bool)
      requires Valid()
      ensures b == (elems == [])
    {
      ghost var r := [sentinel] + elems;
      assert r[0] == sentinel && (|r| > 1 ==> r[1] == elems[0] && r[|r| - 1] != r[0]);
      var inList := sentinel.IsInList();
      b := !inList;
    }

    /** An element that passes isInList's assertion and is in no list is not in this one. */
    lemma AloneOutside(e: Element)
      requires Valid() && Alone(e) && !e.isSentinel
      ensures e !in [sentinel] + elems
    {
      var r := [sentinel] + elems;
      forall i | 0 <= i < |r| ensures r[i] != e { InRing(r, i); }
    }
  }

  // ---------- several lists ----------

  type Contents = seq<seq<Element>>

  /** The calls a client can make on its lists; i is where at stands in list k. */
  datatype Op =
    | InsertFront(k: nat, e: Element)
    | InsertBack(k: nat, e: Element)
    | SetNext(at: Element, e: Element, k: nat, i: nat)
    | SetPrevious(at: Element, e: Element, k: nat, i: nat)
    | Remove(at: Element, k: nat, i: nat)
    | PopFirst(k: nat)
    | PopLast(k: nat)

  ghost predicate Held(c: Contents, e: Element) {
    exists k :: 0 <= k < |c| && e in c[k]
  }

  /** What the assertions in the source ask for: an element inserted is in no list, one removed is in one. */
  ghost predicate Allowed(c: Contents, op: Op) {
    && op.k < |c|
    && (op.InsertFront? || op.InsertBack? || op.SetNext? || op.SetPrevious? ==> !Held(c, op.e))
    && (op.SetNext? || op.SetPrevious? || op.Remove? ==> op.i < |c[op.k]| && c[op.k][op.i] == op.at)
  }

  /** What a call does to the lists as plain sequences. */
  ghost function Apply(c: Contents, op: Op): Contents
    requires Allowed(c, op)
  {
    var s := c[op.k];
    c[op.k := match op
              case InsertFront(_, e) => [e] + s
              case InsertBack(_, e) => s + [e]
              case SetNext(_, e, _, i) => InsertedAt(s, i + 1, e)
              case SetPrevious(_, e, _, i) => InsertedAt(s, i, e)
              case Remove(_, _, i) => s[..i] + s[i + 1..]
              case PopFirst(_) => if s == [] then s else s[1..]
              case PopLast(_) => if s == [] then s else s[..|s| - 1]]
  }

  lemma InsertionAllowed(c: Contents, op: Op)
    requires Allowed(c, op) && (op.SetNext? || op.SetPrevious?)
    ensures op.k < |c| && !Held(c, op.e) && op.i < |c[op.k]| && c[op.k][op.i] == op.at
    ensures Apply(c, op) == c[op.k := InsertedAt(c[op.k], if op.SetNext? then op.i + 1 else op.i, op.e)]
  {
  }

  /** The element inserted, if any, is one of these. */
  predicate TakesFrom(op: Op, elements: set<Element>) {
    op.InsertFront? || op.InsertBack? || op.SetNext? || op.SetPrevious? ==> op.e in elements
  }

  /** Calls one after the other. */
  ghost predicate AllAllowed(c: Contents, ops: seq<Op>)
    decreases |ops|
  {
    ops == [] || (Allowed(c, ops[0]) && AllAllowed(Apply(c, ops[0]), ops[1..]))
  }

  ghost function ApplyAll(c: Contents, ops: seq<Op>): Contents
    requires AllAllowed(c, ops)
    decreases |ops|
  {
    if ops == [] then c else ApplyAll(Apply(c, ops[0]), ops[1..])
  }

  /** No element is in two lists. */
  ghost predicate Separate(c: Contents) {
    forall j, k :: 0 <= j < k < |c| ==> Disjoint(c[j], c[k])
  }

  ghost predicate Disjoint(s: seq<Element>, t: seq<Element>) {
    forall e :: e in s ==> e !in t
  }

  /** Changing one list to what it had, with or without one element that is in no list. */
  lemma SeparateKept(c: Contents, k: nat, s: seq<Element>, extra: set<Element>)
    requires Separate(c) && k < |c|
    requires forall e :: e in s ==> e in c[k] || e in extra
    requires forall e :: e in extra ==> !Held(c, e)
    ensures Separate(c[k := s])
  {
    var c' := c[k := s];
    forall i, j | 0 <= i < j < |c'| ensures Disjoint(c'[i], c'[j]) {
      assert Disjoint(c[i], c[j]);
      assert forall e :: e in extra ==> e !in c[i] && e !in c[j];
    }
  }

  lemma HeldAfter(c: Contents, k: nat, s: seq<Element>, e: Element)
    requires k < |c| && Separate(c)
    ensures Held(c[k := s], e) <==> e in s || (Held(c, e) && e !in c[k])
  {
    var c' := c[k := s];
    if e in s { assert e in c'[k]; }
    if Held(c, e) && e !in c[k] {
      var j :| 0 <= j < |c| && e in c[j];
      assert e in c'[j];
    }
    if Held(c', e) && e !in s {
      var j :| 0 <= j < |c'| && e in c'[j];
      assert e in c[j];
      assert j < k ==> Disjoint(c[j], c[k]);
      assert k < j ==> Disjoint(c[k], c[j]);
    }
  }

  twostate lemma StillValid(l: LinkedList)
    requires old(l.Valid()) && l.elems == old(l.elems)
    requires l.sentinel.next == old(l.sentinel.next) && l.sentinel.prev == old(l.sentinel.prev)
    requires forall i :: 0 <= i < |l.elems| ==> l.elems[i].next == old(l.elems[i].next)
    requires forall i :: 0 <= i < |l.elems| ==> l.elems[i].prev == old(l.elems[i].prev)
    ensures l.Valid()
  {
    var r := [l.sentinel] + l.elems;
    forall i | 0 <= i < |r| ensures r[i].next == After(r, i) && r[i].prev == Before(r, i) {
      assert i > 0 ==> r[i] == l.elems[i - 1];
      assert old(r[i].next) == After(r, i) && old(r[i].prev) == Before(r, i);
    }
  }

  /** elements: all that exist, in a list or not. */
  class Lists {
    const lists: seq<LinkedList>
    const elements: set<Element>

    /** Lists with nothing in them yet. */
    constructor (count: nat, elements: set<Element>)
      requires forall e :: e in elements ==> Alone(e) && !e.isSentinel
      ensures this.elements == elements && |lists| == count
      ensures World() && forall k :: 0 <= k < count ==> View()[k] == []
    {
      var made: seq<LinkedList> := [];
      while |made| < count
        invariant |made| <= count
        invariant forall k :: 0 <= k < |made| ==> made[k].Valid() && made[k].elems == [] && fresh(made[k]) && fresh(made[k].sentinel)
        invariant forall j, k :: 0 <= j < k < |made| ==> made[j] != made[k] && made[j].sentinel != made[k].sentinel
      {
        var l := new LinkedList();
        made := made + [l];
      }
      lists := made;
      this.elements := elements;
    }

    ghost function View(): (c: Contents)
      reads lists
      ensures |c| == |lists| && forall k :: 0 <= k < |lists| ==> c[k] == lists[k].elems
    {
      seq(|lists|, k requires 0 <= k < |lists| reads lists => lists[k].elems)
    }

    /** What never changes. */
    ghost predicate Fixed() {
      && (forall j, k :: 0 <= j < k < |lists| ==> lists[j] != lists[k] && lists[j].sentinel != lists[k].sentinel)
      && (forall k :: 0 <= k < |lists| ==> lists[k].sentinel.isSentinel)
      && (forall e :: e in elements ==> !e.isSentinel)
    }

    /** No element is in two of the lists. */
    ghost predicate Sound(c: Contents) {
      && Fixed() && |c| == |lists| && Separate(c)
      && (forall k, e :: 0 <= k < |lists| && e in c[k] ==> e in elements)
    }

    ghost predicate AllRings()
      reads lists, elements, set l | l in lists :: l.sentinel
    {
      forall k :: 0 <= k < |lists| ==> (forall e :: e in lists[k].elems ==> e in elements) && lists[k].Valid()
    }

    ghost predicate LooseAlone()
      reads lists, elements
    {
      forall e :: e in elements && !Held(View(), e) ==> Alone(e)
    }

    /** Every list is a ring, no two share anything, and what is in no list is alone. */
    ghost predicate World()
      reads lists, elements, set l | l in lists :: l.sentinel
    {
      Sound(View()) && AllRings() && LooseAlone()
    }

    /** What a call on list k may touch. */
    ghost function Footprint(k: nat): set<object>
      requires k < |lists|
      reads lists
    {
      {lists[k], lists[k].sentinel} + set x | x in lists[k].elems
    }

    /** Before a call on list k with elements in no list: everything else is out of its reach. */
    lemma Ready(k: nat, extra: set<Element>)
      requires World() && k < |lists| && extra <= elements && forall e :: e in extra ==> !Held(View(), e)
      ensures Sound(View()) && lists[k].Valid() && |View()| == |lists|
      ensures lists[k].sentinel !in elements
      ensures forall e :: e in extra ==> !e.isSentinel
      ensures forall e :: e in elements && !Held(View(), e) ==> Alone(e)
      ensures forall j :: 0 <= j < |lists| && j != k ==> lists[j] != lists[k] && Beyond(lists[j].sentinel, k, extra)
      ensures forall j, i :: 0 <= j < |lists| && j != k && 0 <= i < |lists[j].elems| ==> Beyond(lists[j].elems[i], k, extra)
    {
      hide Ring;
      forall j, i | 0 <= j < |lists| && j != k && 0 <= i < |lists[j].elems| ensures Beyond(lists[j].elems[i], k, extra) {
        assert j < k ==> Disjoint(View()[j], View()[k]);
        assert k < j ==> Disjoint(View()[k], View()[j]);
        assert lists[j].elems[i] in View()[j];
      }
    }

    ghost predicate Beyond(x: Element, k: nat, extra: set<Element>)
      requires k < |lists|
      reads lists
    {
      x != lists[k].sentinel && x !in lists[k].elems && x !in extra
    }

    twostate lemma OthersStillValid(k: nat)
      requires k < |lists| && old(AllRings())
      requires forall j :: 0 <= j < |lists| && j != k ==> lists[j].elems == old(lists[j].elems)
      requires forall j :: 0 <= j < |lists| && j != k ==> lists[j].sentinel.next == old(lists[j].sentinel.next)
      requires forall j :: 0 <= j < |lists| && j != k ==> lists[j].sentinel.prev == old(lists[j].sentinel.prev)
      requires forall j, i :: 0 <= j < |lists| && j != k && 0 <= i < |lists[j].elems| ==>
                 lists[j].elems[i].next == old(lists[j].elems[i].next)
      requires forall j, i :: 0 <= j < |lists| && j != k && 0 <= i < |lists[j].elems| ==>
                 lists[j].elems[i].prev == old(lists[j].elems[i].prev)
      ensures forall j :: 0 <= j < |lists| && j != k ==> lists[j].Valid()
    {
      hide Ring;
      forall j | 0 <= j < |lists| && j != k ensures lists[j].Valid() { StillValid(lists[j]); }
    }

    /** After a call on list k the whole is as it should be. */
    lemma WorldAfter(c: Contents, k: nat, extra: set<Element>)
      requires Sound(c) && k < |lists| && View() == c[k := lists[k].elems] && lists[k].Valid()
      requires forall j :: 0 <= j < |lists| && j != k ==> lists[j].Valid()
      requires extra <= elements && forall e :: e in extra ==> !Held(c, e)
      requires forall e :: e in lists[k].elems ==> e in c[k] || e in extra
      requires forall e :: e in elements && e !in lists[k].elems && (e in c[k] || e in extra || !Held(c, e)) ==> Alone(e)
      ensures World()
    {
      hide Ring, Disjoint;
      SeparateKept(c, k, lists[k].elems, extra);
      forall e | e in elements && !Held(View(), e) ensures Alone(e) { HeldAfter(c, k, lists[k].elems, e); }
      forall j, e | 0 <= j < |lists| && e in View()[j] ensures e in elements {
        if j != k { assert e in c[j]; }
      }
    }

    method InsertFront(k: nat, e: Element)
      requires World() && Allowed(View(), Op.InsertFront(k, e)) && e in elements
      modifies Footprint(k), e
      ensures World() && View() == Apply(old(View()), Op.InsertFront(k, e))
    {
      hide Ring, Held, Separate, Sound, AllRings, LooseAlone, LinkedList.Valid;
      var l := lists[k];
      ghost var c := View();
      Ready(k, {e});
      SentinelNeighbours(k);
      l.InsertFront(e);
      OthersStillValid(k);
      assert forall x :: x in elements && x !in c[k] && x !in {e} && !Held(c, x) ==> Alone(x);
      assert View() == c[k := l.elems];
      WorldAfter(c, k, {e});
    }

    method InsertBack(k: nat, e: Element)
      requires World() && Allowed(View(), Op.InsertBack(k, e)) && e in elements
      modifies Footprint(k), e
      ensures World() && View() == Apply(old(View()), Op.InsertBack(k, e))
    {
      hide Ring, Held, Separate, Sound, AllRings, LooseAlone, LinkedList.Valid;
      var l := lists[k];
      ghost var c := View();
      Ready(k, {e});
      SentinelNeighbours(k);
      l.InsertBack(e);
      OthersStillValid(k);
      assert forall x :: x in elements && x !in c[k] && x !in {e} && !Held(c, x) ==> Alone(x);
      assert View() == c[k := l.elems];
      WorldAfter(c, k, {e});
    }

    method SetNext(at: Element, e: Element, k: nat, ghost i: nat)
      requires World() && Allowed(View(), Op.SetNext(at, e, k, i)) && e in elements
      modifies Footprint(k), e
      ensures World() && View() == Apply(old(View()), Op.SetNext(at, e, k, i))
    {
      hide Ring, InsertedAt, Held, Separate, Sound, AllRings, LooseAlone, LinkedList.Valid, Allowed, Apply, Alone;
      ghost var c := View();
      InsertionAllowed(c, Op.SetNext(at, e, k, i));
      var l := lists[k];
      Ready(k, {e});
      SentinelNeighbours(k);
      l.PutBehind(at, e, i);
      InsertedMembers(c[k], i + 1, e);
      OthersStillValid(k);
      assert forall x :: x in elements && x !in c[k] && x !in {e} && !Held(c, x) ==> Alone(x);
      assert View() == c[k := l.elems];
      WorldAfter(c, k, {e});
    }

    method SetPrevious(at: Element, e: Element, k: nat, ghost i: nat)
      requires World() && Allowed(View(), Op.SetPrevious(at, e, k, i)) && e in elements
      modifies Footprint(k), e
      ensures World() && View() == Apply(old(View()), Op.SetPrevious(at, e, k, i))
    {
      hide Ring, InsertedAt, Held, Separate, Sound, AllRings, LooseAlone, LinkedList.Valid, Allowed, Apply, Alone;
      ghost var c := View();
      InsertionAllowed(c, Op.SetPrevious(at, e, k, i));
      var l := lists[k];
      Ready(k, {e});
      SentinelNeighbours(k);
      l.PutBefore(at, e, i);
      InsertedMembers(c[k], i, e);
      OthersStillValid(k);
      assert forall x :: x in elements && x !in c[k] && x !in {e} && !Held(c, x) ==> Alone(x);
      assert View() == c[k := l.elems];
      WorldAfter(c, k, {e});
    }

    method Remove(at: Element, k: nat, ghost i: nat)
      requires World() && Allowed(View(), Op.Remove(at, k, i))
      modifies Footprint(k)
      ensures World() && View() == Apply(old(View()), Op.Remove(at, k, i))
    {
      hide Ring, Held, Separate, Sound, AllRings, LooseAlone, LinkedList.Valid;
      var l := lists[k];
      ghost var c := View();
      Ready(k, {});
      SentinelNeighbours(k);
      l.Take(at, i);
      OthersStillValid(k);
      assert forall x :: x in elements && x !in c[k] && !Held(c, x) ==> Alone(x);
      assert View() == c[k := l.elems];
      WorldAfter(c, k, {});
    }

    method PopFirst(k: nat)
      requires World() && Allowed(View(), Op.PopFirst(k))
      modifies Footprint(k)
      ensures World() && View() == Apply(old(View()), Op.PopFirst(k))
    {
      hide Ring, Held, Separate, Sound, AllRings, LooseAlone, LinkedList.Valid;
      var l := lists[k];
      ghost var c := View();
      Ready(k, {});
      SentinelNeighbours(k);
      var e := l.PopFirst();
      assert l.elems == if c[k] == [] then [] else c[k][1..];
      OthersStillValid(k);
      assert forall x :: x in elements && x !in c[k] && !Held(c, x) ==> Alone(x);
      assert View() == c[k := l.elems];
      WorldAfter(c, k, {});
    }

    method PopLast(k: nat)
      requires World() && Allowed(View(), Op.PopLast(k))
      modifies Footprint(k)
      ensures World() && View() == Apply(old(View()), Op.PopLast(k))
    {
      hide Ring, Held, Separate, Sound, AllRings, LooseAlone, LinkedList.Valid;
      var l := lists[k];
      ghost var c := View();
      Ready(k, {});
      SentinelNeighbours(k);
      var e := l.PopLast();
      assert l.elems == if c[k] == [] then [] else c[k][..|c[k]| - 1];
      OthersStillValid(k);
      assert forall x :: x in elements && x !in c[k] && !Held(c, x) ==> Alone(x);
      assert View() == c[k := l.elems];
      WorldAfter(c, k, {});
    }

    /** Any run of calls: the lists stay rings apart from each other, and hold what the plain sequences hold. */
    method Run(ops: seq<Op>)
      requires World() && AllAllowed(View(), ops)
      requires forall n :: 0 <= n < |ops| ==> TakesFrom(ops[n], elements)
      modifies lists, elements, set l | l in lists :: l.sentinel
      ensures World() && View() == ApplyAll(old(View()), ops)
    {
      hide World, Allowed, Apply;
      var n := 0;
      while n < |ops|
        invariant n <= |ops| && World() && AllAllowed(View(), ops[n..])
        invariant ApplyAll(View(), ops[n..]) == ApplyAll(old(View()), ops)
      {
        assert ops[n..][0] == ops[n] && ops[n..][1..] == ops[n + 1..];
        Perform(ops[n]);
        n := n + 1;
      }
      assert ops[n..] == [];
    }

    method Perform(op: Op)
      requires World() && Allowed(View(), op) && TakesFrom(op, elements)
      modifies lists, elements, set l | l in lists :: l.sentinel
      ensures World() && View() == Apply(old(View()), op)
    {
      hide Separate, Held, LooseAlone, LinkedList.Valid, Fixed;
      match op
      case InsertFront(k, e) => InsertFront(k, e);
      case InsertBack(k, e) => InsertBack(k, e);
      case SetNext(at, e, k, i) => SetNext(at, e, k, i);
      case SetPrevious(at, e, k, i) => SetPrevious(at, e, k, i);
      case Remove(at, k, i) => Remove(at, k, i);
      case PopFirst(k) => PopFirst(k);
      case PopLast(k) => PopLast(k);
    }

    lemma SentinelNeighbours(k: nat)
      requires k < |lists| && lists[k].Valid()
      ensures var s := lists[k].sentinel;
              (s.next == s || s.next in lists[k].elems) && (s.prev == s || s.prev in lists[k].elems)
    {
      InRing([lists[k].sentinel] + lists[k].elems, 0);
    }
  }
}
