/** RefPtr.h: objects that count their owners, and the holders that own them. */
module RefPtr {
  import opened Basics
  import FiniteWalk

  type Obj = nat
  type Holder = nat

  /** count: refCnt of every live object. ptr: what every holder points to. home: the object a holder is a member of;
      the others are locals. destroyed: the objects deleted, in order. */
  datatype Mem = Mem(count: map<Obj, int>, ptr: map<Holder, Option<Obj>>, home: map<Holder, Option<Obj>>, destroyed: seq<Obj>)

  /** The holders pointing to o, but for those being written to. */
  function Owners(m: Mem, o: Obj, busy: set<Holder>): set<Holder> {
    Pointing(m.ptr, o, busy)
  }

  function Pointing(ptr: map<Holder, Option<Obj>>, o: Obj, busy: set<Holder>): set<Holder> {
    set h | h in ptr && h !in busy && ptr[h] == Some(o)
  }

  function Members(m: Mem, o: Obj): set<Holder> {
    set h | h in m.home && m.home[h] == Some(o)
  }

  function Ref(t: Option<Obj>): multiset<Obj> {
    if t.Some? then multiset{t.value} else multiset{}
  }

  /** Every live object counts the holders that point to it, and the references on their way from one holder to
      another (loose). dying: objects deleted whose members are not all gone. */
  ghost predicate Counted(m: Mem, loose: multiset<Obj>, dying: set<Obj>, busy: set<Holder>) {
    && m.ptr.Keys == m.home.Keys
    && (forall o :: o in m.count ==> m.count[o] == |Owners(m, o, busy)| + loose[o])
    && (forall h :: h in m.ptr && h !in busy && m.ptr[h].Some? ==> m.ptr[h].value in m.count)
    && (forall o :: o in loose ==> o in m.count)
    && (forall h :: h in m.home && m.home[h].Some? ==> m.home[h].value in m.count || m.home[h].value in dying)
    && (forall o :: o in m.destroyed ==> o !in m.count) && Distinct(m.destroyed)
    && (forall o :: o in dying ==> o in m.destroyed)
  }

  /** Between statements: nothing on its way, nothing half gone. */
  ghost predicate Sound(m: Mem) {
    Counted(m, multiset{}, {}, {})
  }

  /** What a release does: objects are deleted, each once and with its members; every other holder keeps its value,
      and an object that still has an owner its life. */
  ghost predicate Kept(m: Mem, m': Mem) {
    && m'.count.Keys <= m.count.Keys
    && m.ptr.Keys == m.home.Keys && m'.ptr.Keys == m'.home.Keys && m'.ptr.Keys <= m.ptr.Keys
    && (forall h :: h in m'.ptr ==> m'.ptr[h] == m.ptr[h] && m'.home[h] == m.home[h])
    && (forall h :: h in m.ptr && h !in m'.ptr ==> m.home[h].Some? && Deleted(m, m', m.home[h].value))
    && (forall o :: o in m'.count && m'.count[o] == 0 ==> m.count[o] == 0)
    && m.destroyed <= m'.destroyed
    && (forall o :: o in m'.destroyed[|m.destroyed|..] <==> Deleted(m, m', o))
  }

  predicate Deleted(m: Mem, m': Mem, o: Obj) {
    o in m.count && o !in m'.count
  }

  // ---------- which objects a release leaves alive ----------

  /** A holder that is not being written to points to x, and is a local or a member of an object in s. */
  predicate Backed(ptr: map<Holder, Option<Obj>>, home: map<Holder, Option<Obj>>, x: Obj, s: set<Obj>, busy: set<Holder>) {
    exists r :: r in ptr && r !in busy && r in home && ptr[r] == Some(x) && (home[r].None? || home[r].value in s)
  }

  /** The objects in s keep each other: each has a loose reference, an owner outside any object or in one of s, or has
      never been owned. */
  ghost predicate Keeps(m: Mem, s: set<Obj>, loose: multiset<Obj>, busy: set<Holder>) {
    forall x :: x in s ==> x in m.count && (m.count[x] == 0 || x in loose || Backed(m.ptr, m.home, x, s, busy))
  }

  /** x is kept by something other than the holders being written to. */
  ghost predicate Held(m: Mem, x: Obj, loose: multiset<Obj>, busy: set<Holder>) {
    exists s :: x in s && Keeps(m, s, loose, busy)
  }

  ghost predicate KeepsAll(m: Mem, m': Mem, loose: multiset<Obj>, busy: set<Holder>) {
    forall s :: Keeps(m, s, loose, busy) ==> Keeps(m', s, loose, busy)
  }

  /** What a statement's release leaves: exactly what is held lives on, the rest is deleted, each object once and with
      its members. */
  ghost predicate Swept(m: Mem, m': Mem, loose: multiset<Obj>, busy: set<Holder>) {
    && m'.count.Keys <= m.count.Keys
    && (forall o :: o in m.count ==> (o in m'.count <==> Held(m, o, loose, busy)))
    && (forall o :: o in m'.count && m'.count[o] == 0 ==> m.count[o] == 0)
    && m.destroyed <= m'.destroyed
    && (forall o :: o in m'.destroyed[|m.destroyed|..] <==> Deleted(m, m', o))
    && m'.ptr.Keys == m'.home.Keys && m'.ptr.Keys <= m.ptr.Keys && m.ptr.Keys == m.home.Keys
    && (forall h :: h in m'.ptr ==> m'.home[h] == m.home[h])
    && (forall h :: h in m.ptr ==> (h in m'.ptr <==> m.home[h].None? || m.home[h].value in m'.count))
  }

  /** A holder that is not being written to leads from a local to x, through members of objects on the way. */
  ghost predicate Leads(m: Mem, path: seq<Holder>, x: Obj, busy: set<Holder>) {
    && path != [] && path[|path| - 1] !in busy
    && path[|path| - 1] in m.ptr && path[|path| - 1] in m.home && m.ptr[path[|path| - 1]] == Some(x)
    && match m.home[path[|path| - 1]]
       case None => |path| == 1
       case Some(o) => Leads(m, path[..|path| - 1], o, busy)
  }

  /** What a local leads to, by whatever chain of members past the holder being written to, lives through the write. */
  lemma {:induction false} LedToIsHeld(m: Mem, path: seq<Holder>, x: Obj, loose: multiset<Obj>, busy: set<Holder>)
    requires Leads(m, path, x, busy)
    requires forall h :: h in m.ptr && h !in busy && m.ptr[h].Some? ==> m.ptr[h].value in m.count
    ensures Held(m, x, loose, busy)
    decreases |path|
  {
    var r := path[|path| - 1];
    var s: set<Obj> := {};
    if m.home[r].Some? {
      LedToIsHeld(m, path[..|path| - 1], m.home[r].value, loose, busy);
      s :| m.home[r].value in s && Keeps(m, s, loose, busy);
    }
    forall y | y in s + {x} ensures y in m.count && (m.count[y] == 0 || y in loose || Backed(m.ptr, m.home, y, s + {x}, busy)) {
      if y == x {
        assert m.ptr[r] == Some(x);
      } else if m.count[y] != 0 && y !in loose {
        BackedMore(m.ptr, m.home, y, s, s + {x}, busy);
      }
    }
    assert Keeps(m, s + {x}, loose, busy);
  }

  lemma BackedMore(ptr: map<Holder, Option<Obj>>, home: map<Holder, Option<Obj>>, x: Obj, s: set<Obj>, t: set<Obj>, busy: set<Holder>)
    requires Backed(ptr, home, x, s, busy) && s <= t
    ensures Backed(ptr, home, x, t, busy)
  {
    var r :| r in ptr && r !in busy && r in home && ptr[r] == Some(x) && (home[r].None? || home[r].value in s);
    assert home[r].None? || home[r].value in t;
  }

  /** Not everything that lives is held: two objects that own each other, with a raw pointer to one of them. Writing to
      its member deletes the object the member is in. */
  lemma OwnMemberOnly()
    ensures var m := Mem(map[0 := 1, 1 := 1], map[10 := Some(1), 11 := Some(0)], map[10 := Some(0), 11 := Some(1)], []);
            Sound(m) && m.home[10] == Some(0) && !Held(m, 0, multiset{}, {10})
  {
    hide Distinct;
    var m := Mem(map[0 := 1, 1 := 1], map[10 := Some(1), 11 := Some(0)], map[10 := Some(0), 11 := Some(1)], []);
    assert Owners(m, 0, {}) == {11} && Owners(m, 1, {}) == {10};
    assert Distinct(m.destroyed) by { NoneTwice(); }
    forall s | Keeps(m, s, multiset{}, {10}) ensures 0 !in s {
      if 0 in s { assert Backed(m.ptr, m.home, 0, s, {10}); assert 1 in s; }
      if 1 in s { assert !Backed(m.ptr, m.home, 1, s, {10}); }
    }
  }

  lemma NoneTwice()
    ensures Distinct<Obj>([])
  {
  }

  lemma KeepsMember(m: Mem, s: set<Obj>, loose: multiset<Obj>, busy: set<Holder>, h: Holder)
    requires Keeps(m, s, loose, busy) && h in m.home && m.home[h].Some? && m.home[h].value !in m.count
    ensures Keeps(m.(ptr := m.ptr - {h}, home := m.home - {h}), s, loose, busy)
  {
    var m' := m.(ptr := m.ptr - {h}, home := m.home - {h});
    forall x | x in s && m.count[x] != 0 && x !in loose ensures Backed(m'.ptr, m'.home, x, s, busy) {
      var r :| r in m.ptr && r !in busy && r in m.home && m.ptr[r] == Some(x) && (m.home[r].None? || m.home[r].value in s);
      assert r in m'.ptr && r in m'.home;
    }
  }

  lemma KeepsAllMember(m: Mem, loose: multiset<Obj>, busy: set<Holder>, h: Holder)
    requires h in m.home && m.home[h].Some? && m.home[h].value !in m.count
    ensures KeepsAll(m, m.(ptr := m.ptr - {h}, home := m.home - {h}), loose, busy)
  {
    forall s | Keeps(m, s, loose, busy) ensures Keeps(m.(ptr := m.ptr - {h}, home := m.home - {h}), s, loose, busy) {
      KeepsMember(m, s, loose, busy, h);
    }
  }

  /** What is kept has a reference besides the one that goes. */
  lemma KeptByAnother(m: Mem, s: set<Obj>, loose: multiset<Obj>, dying: set<Obj>, busy: set<Holder>, o: Obj)
    requires Counted(m, loose + multiset{o}, dying, busy) && Keeps(m, s, loose, busy) && o in s
    ensures m.count[o] > 1
  {
    assert o in loose + multiset{o};
    if o !in loose {
      var r :| r in m.ptr && r !in busy && r in m.home && m.ptr[r] == Some(o) && (m.home[r].None? || m.home[r].value in s);
      assert r in Owners(m, o, busy);
    }
  }

  lemma KeepsAllCount(m: Mem, loose: multiset<Obj>, dying: set<Obj>, busy: set<Holder>, o: Obj)
    requires Counted(m, loose + multiset{o}, dying, busy) && o in m.count && m.count[o] > 1
    ensures KeepsAll(m, m.(count := m.count[o := m.count[o] - 1]), loose, busy)
  {
    hide Counted, Backed;
  }

  lemma KeepsAllDelete(m: Mem, loose: multiset<Obj>, dying: set<Obj>, busy: set<Holder>, o: Obj)
    requires Counted(m, loose + multiset{o}, dying, busy) && o in m.count && m.count[o] == 1
    ensures KeepsAll(m, m.(count := m.count - {o}, destroyed := m.destroyed + [o]), loose, busy)
  {
    hide Counted, Backed;
    var m' := m.(count := m.count - {o}, destroyed := m.destroyed + [o]);
    forall s | Keeps(m, s, loose, busy) ensures Keeps(m', s, loose, busy) {
      if o in s { KeptByAnother(m, s, loose, dying, busy, o); }
    }
  }

  lemma KeepsAllTwice(a: Mem, b: Mem, c: Mem, loose: multiset<Obj>, busy: set<Holder>)
    requires KeepsAll(a, b, loose, busy) && KeepsAll(b, c, loose, busy)
    ensures KeepsAll(a, c, loose, busy)
  {
    hide Keeps;
  }

  /** Where nothing is half gone, the live objects keep each other. */
  lemma LiveKeep(m: Mem, loose: multiset<Obj>, busy: set<Holder>)
    requires Counted(m, loose, {}, busy)
    ensures Keeps(m, m.count.Keys, loose, busy)
  {
    hide Distinct;
    forall x | x in m.count && m.count[x] != 0 && x !in loose ensures Backed(m.ptr, m.home, x, m.count.Keys, busy) {
      assert Owners(m, x, busy) != {};
      var r :| r in Owners(m, x, busy);
      assert r in m.home && (m.home[r].None? || m.home[r].value in m.count.Keys);
    }
  }

  lemma KeptWasKept(m: Mem, m': Mem, s: set<Obj>, loose: multiset<Obj>, busy: set<Holder>)
    requires Kept(m, m') && Keeps(m', s, loose, busy)
    ensures Keeps(m, s, loose, busy)
  {
    forall x | x in s && m.count[x] != 0 && x !in loose ensures Backed(m.ptr, m.home, x, s, busy) {
      var r :| r in m'.ptr && r !in busy && r in m'.home && m'.ptr[r] == Some(x) && (m'.home[r].None? || m'.home[r].value in s);
      assert r in m.ptr && r in m.home;
    }
  }

  /** After a release exactly what was held is there. */
  lemma ReleaseSweeps(m: Mem, m': Mem, loose: multiset<Obj>, busy: set<Holder>)
    requires Kept(m, m') && KeepsAll(m, m', loose, busy) && Counted(m', loose, {}, busy)
    ensures Swept(m, m', loose, busy)
  {
    hide Backed, Distinct, Owners;
    LiveKeep(m', loose, busy);
    KeptWasKept(m, m', m'.count.Keys, loose, busy);
    forall o | o in m.count ensures o in m'.count <==> Held(m, o, loose, busy) {
      if Held(m, o, loose, busy) {
        var s :| o in s && Keeps(m, s, loose, busy);
        assert Keeps(m', s, loose, busy);
      }
    }
  }

  // ---------- single changes ----------

  /** Adding and taking away a reference that no holder has yet, or has any more. */
  lemma CountUp(m: Mem, loose: multiset<Obj>, dying: set<Obj>, busy: set<Holder>, o: Obj)
    requires Counted(m, loose, dying, busy) && o in m.count
    ensures Counted(m.(count := m.count[o := m.count[o] + 1]), loose + multiset{o}, dying, busy)
  {
    hide Pointing, Distinct;
    var m' := m.(count := m.count[o := m.count[o] + 1]);
    forall x | x in m'.count ensures m'.count[x] == |Owners(m', x, busy)| + (loose + multiset{o})[x] {
      assert Owners(m', x, busy) == Owners(m, x, busy);
    }
  }

  lemma CountDown(m: Mem, loose: multiset<Obj>, dying: set<Obj>, busy: set<Holder>, o: Obj)
    requires Counted(m, loose + multiset{o}, dying, busy) && o in m.count && m.count[o] > 1
    ensures Counted(m.(count := m.count[o := m.count[o] - 1]), loose, dying, busy)
  {
    hide Pointing, Distinct;
    var m' := m.(count := m.count[o := m.count[o] - 1]);
    forall x | x in m'.count ensures m'.count[x] == |Owners(m', x, busy)| + loose[x] {
      assert Owners(m', x, busy) == Owners(m, x, busy);
    }
    forall x | x in loose ensures x in m'.count { assert x in loose + multiset{o}; }
  }

  /** The last reference goes: nobody points to o, and its members are still there. */
  lemma LastGone(m: Mem, loose: multiset<Obj>, dying: set<Obj>, busy: set<Holder>, o: Obj)
    requires Counted(m, loose + multiset{o}, dying, busy) && o in m.count && m.count[o] == 1
    ensures Counted(m.(count := m.count - {o}, destroyed := m.destroyed + [o]), loose, dying + {o}, busy)
    ensures Owners(m, o, busy) == {} && loose[o] == 0
  {
    var m' := m.(count := m.count - {o}, destroyed := m.destroyed + [o]);
    assert Owners(m, o, busy) == {} && loose[o] == 0;
    forall h | h in m'.ptr && h !in busy && m'.ptr[h].Some? ensures m'.ptr[h].value in m'.count {
      assert h !in Owners(m, o, busy);
    }
    forall x | x in m'.count ensures m'.count[x] == |Owners(m', x, busy)| + loose[x] {
      assert Owners(m', x, busy) == Owners(m, x, busy);
    }
    assert forall x :: x in loose ==> x in loose + multiset{o};
  }

  /** One holder no longer points to what it did. */
  lemma LeftOwners(m: Mem, m': Mem, busy: set<Holder>, h: Holder, x: Obj)
    requires h in m.ptr && h !in busy
    requires m'.ptr == m.ptr - {h} || m'.ptr == m.ptr[h := None]
    ensures |Owners(m', x, busy)| + Ref(m.ptr[h])[x] == |Owners(m, x, busy)|
  {
    if m.ptr[h] == Some(x) {
      assert h in Owners(m, x, busy);
      assert Owners(m', x, busy) == Owners(m, x, busy) - {h};
    } else {
      assert Owners(m', x, busy) == Owners(m, x, busy);
    }
  }

  /** A member of a dying object goes; what it pointed to becomes a loose reference. */
  lemma MemberGone(m: Mem, loose: multiset<Obj>, dying: set<Obj>, busy: set<Holder>, h: Holder)
    requires Counted(m, loose, dying, busy) && h in m.home && m.home[h].Some? && m.home[h].value in dying
    ensures h in m.ptr
    ensures Counted(m.(ptr := m.ptr - {h}, home := m.home - {h}), loose + Ref(if h in busy then None else m.ptr[h]), dying, busy)
  {
    hide Owners, Distinct;
    var m' := m.(ptr := m.ptr - {h}, home := m.home - {h});
    var more := Ref(if h in busy then None else m.ptr[h]);
    forall x | x in m'.count ensures m'.count[x] == |Owners(m', x, busy)| + (loose + more)[x] {
      if h in busy { BusyGone(m, busy, h, x); } else { LeftOwners(m, m', busy, h, x); }
    }
  }

  lemma BusyGone(m: Mem, busy: set<Holder>, h: Holder, x: Obj)
    requires h in busy
    ensures Owners(m.(ptr := m.ptr - {h}, home := m.home - {h}), x, busy) == Owners(m, x, busy)
  {
  }

  /** Nothing of a dying object is left. */
  lemma AllGone(m: Mem, loose: multiset<Obj>, dying: set<Obj>, busy: set<Holder>, o: Obj)
    requires Counted(m, loose, dying, busy) && o in dying && Members(m, o) == {}
    ensures Counted(m, loose, dying - {o}, busy)
  {
    forall h | h in m.home && m.home[h].Some? ensures m.home[h].value in m.count || m.home[h].value in dying - {o} {
      assert h !in Members(m, o);
    }
  }

  /** What two calls in a row keep. */
  lemma KeptTwice(a: Mem, b: Mem, c: Mem)
    requires Kept(a, b) && Kept(b, c)
    ensures Kept(a, c)
  {
    var n := |a.destroyed|;
    assert c.destroyed[n..] == b.destroyed[n..] + c.destroyed[|b.destroyed|..];
    forall o ensures o in c.destroyed[n..] <==> Deleted(a, c, o) {
      assert o in b.destroyed[n..] <==> Deleted(a, b, o);
      assert o in c.destroyed[|b.destroyed|..] <==> Deleted(b, c, o);
    }
    forall h | h in a.ptr && h !in c.ptr ensures a.home[h].Some? && Deleted(a, c, a.home[h].value) {
      if h in b.ptr { assert Deleted(b, c, b.home[h].value); } else { assert Deleted(a, b, a.home[h].value); }
    }
  }

  /** A member of an object deleted on the way goes. */
  lemma KeptDrop(a: Mem, b: Mem, h: Holder)
    requires Kept(a, b) && h in b.ptr && b.home[h].Some? && Deleted(a, b, b.home[h].value)
    ensures Kept(a, b.(ptr := b.ptr - {h}, home := b.home - {h}))
  {
    var c := b.(ptr := b.ptr - {h}, home := b.home - {h});
    forall g | g in a.ptr && g !in c.ptr ensures a.home[g].Some? && Deleted(a, c, a.home[g].value) {
      if g in b.ptr { assert g == h; } else { assert Deleted(a, b, a.home[g].value); }
    }
    forall o ensures o in c.destroyed[|a.destroyed|..] <==> Deleted(a, c, o) {
      assert o in b.destroyed[|a.destroyed|..] <==> Deleted(a, b, o);
    }
  }

  lemma KeptDelete(a: Mem, o: Obj)
    requires a.ptr.Keys == a.home.Keys && o in a.count
    ensures Kept(a, a.(count := a.count - {o}, destroyed := a.destroyed + [o]))
  {
    var b := a.(count := a.count - {o}, destroyed := a.destroyed + [o]);
    assert b.destroyed[|a.destroyed|..] == [o];
  }

  lemma KeptCount(a: Mem, o: Obj)
    requires a.ptr.Keys == a.home.Keys && o in a.count && a.count[o] > 1
    ensures Kept(a, a.(count := a.count[o := a.count[o] - 1]))
  {
    var b := a.(count := a.count[o := a.count[o] - 1]);
    assert b.destroyed[|a.destroyed|..] == [];
  }

  /** A holder about to be written to: what it points to becomes a loose reference. */
  lemma MakeBusy(m: Mem, loose: multiset<Obj>, h: Holder)
    requires Counted(m, loose, {}, {}) && h in m.ptr
    ensures Counted(m, loose + Ref(m.ptr[h]), {}, {h})
  {
    hide Owners, Distinct;
    forall x | x in m.count ensures m.count[x] == |Owners(m, x, {h})| + (loose + Ref(m.ptr[h]))[x] {
      BusyOwners(m.ptr, h, x);
      OwnersArePointing(m, x, {});
      OwnersArePointing(m, x, {h});
    }
    if m.ptr[h].Some? { assert m.ptr[h].value in m.count; }
    forall x | x in loose + Ref(m.ptr[h]) ensures x in m.count { assert x in loose || x in Ref(m.ptr[h]); }
  }

  lemma OwnersArePointing(m: Mem, o: Obj, busy: set<Holder>)
    ensures Owners(m, o, busy) == Pointing(m.ptr, o, busy)
  {
  }

  lemma BusyOwners(ptr: map<Holder, Option<Obj>>, h: Holder, x: Obj)
    requires h in ptr
    ensures |Pointing(ptr, x, {})| == |Pointing(ptr, x, {h})| + Ref(ptr[h])[x]
  {
    if ptr[h] == Some(x) {
      assert h in Pointing(ptr, x, {});
      assert Pointing(ptr, x, {h}) == Pointing(ptr, x, {}) - {h};
    } else {
      assert Pointing(ptr, x, {h}) == Pointing(ptr, x, {});
    }
  }

  lemma FillOwners(m: Mem, h: Holder, t: Option<Obj>, x: Obj)
    requires h in m.ptr
    ensures |Owners(m.(ptr := m.ptr[h := t]), x, {})| == |Owners(m, x, {h})| + Ref(t)[x]
  {
    PointingFilled(m.ptr, h, t, x);
  }

  lemma PointingFilled(ptr: map<Holder, Option<Obj>>, h: Holder, t: Option<Obj>, x: Obj)
    requires h in ptr
    ensures |Pointing(ptr[h := t], x, {})| == |Pointing(ptr, x, {h})| + Ref(t)[x]
  {
    assert h !in Pointing(ptr, x, {h});
    if t == Some(x) {
      assert Pointing(ptr[h := t], x, {}) == Pointing(ptr, x, {h}) + {h};
    } else {
      assert Pointing(ptr[h := t], x, {}) == Pointing(ptr, x, {h});
    }
  }

  /** The write: the holder takes a loose reference over. */
  lemma Fill(m: Mem, loose: multiset<Obj>, h: Holder, t: Option<Obj>)
    requires Counted(m, loose + Ref(t), {}, {h}) && h in m.ptr
    ensures Counted(m.(ptr := m.ptr[h := t]), loose, {}, {})
  {
    hide Owners, Distinct, Ref;
    var m' := m.(ptr := m.ptr[h := t]);
    if t.Some? { Refs(t, t.value); }
    forall x | x in m'.count ensures m'.count[x] == |Owners(m', x, {})| + loose[x] { FillOwners(m, h, t, x); }
    forall x | x in loose ensures x in m'.count { assert x in loose + Ref(t); }
  }

  lemma Positive(m: Mem, loose: multiset<Obj>, dying: set<Obj>, busy: set<Holder>, o: Obj)
    requires Counted(m, loose + multiset{o}, dying, busy) && o in m.count
    ensures m.count[o] > 0 && m.ptr.Keys == m.home.Keys
  {
  }

  lemma LooseLives(m: Mem, loose: multiset<Obj>, o: Obj, dying: set<Obj>, busy: set<Holder>)
    requires Counted(m, loose + multiset{o}, dying, busy)
    ensures o in m.count
  {
    assert o in loose + multiset{o};
  }

  lemma NotDying(m: Mem, loose: multiset<Obj>, dying: set<Obj>, busy: set<Holder>, o: Obj)
    requires Counted(m, loose, dying, busy) && o in m.count
    ensures o !in dying
  {
  }

  lemma OneFewer(count: map<Obj, int>, o: Obj)
    requires o in count
    ensures |count - {o}| < |count|
  {
    assert (count - {o}).Keys == count.Keys - {o};
    assert |count.Keys - {o}| < |count.Keys|;
  }

  lemma IsMember(m: Mem, o: Obj, h: Holder)
    requires h in Members(m, o)
    ensures h in m.home && m.home[h] == Some(o)
  {
  }

  /** The other members of a deleted object are out of reach of what its first member releases. */
  lemma MembersKept(m: Mem, m': Mem, o: Obj)
    requires Kept(m, m') && o !in m.count
    ensures Members(m', o) == Members(m, o) && o !in m'.count && |m'.count| <= |m.count|
  {
    forall h | h in Members(m, o) ensures h in Members(m', o) {
      assert h in m.ptr && m.home[h] == Some(o) && !Deleted(m, m', o);
    }
    FiniteWalk.Subset(m'.count.Keys, m.count.Keys);
  }

  lemma MembersDropped(m: Mem, o: Obj, h: Holder)
    requires h in Members(m, o)
    ensures Members(m.(ptr := m.ptr - {h}, home := m.home - {h}), o) == Members(m, o) - {h}
  {
  }

  lemma NewSound(m: Mem, o: Obj, nulls: map<Holder, Option<Obj>>, homes: map<Holder, Option<Obj>>)
    requires Sound(m) && o !in m.count && o !in m.destroyed && nulls.Keys == homes.Keys && nulls.Keys !! m.ptr.Keys
    requires forall h :: h in nulls ==> nulls[h] == None
    requires forall h :: h in homes ==> homes[h] == Some(o)
    ensures Sound(m.(count := m.count[o := 0], ptr := m.ptr + nulls, home := m.home + homes))
  {
    hide Distinct, Owners;
    var m' := m.(count := m.count[o := 0], ptr := m.ptr + nulls, home := m.home + homes);
    forall x | x in m'.count ensures m'.count[x] == |Owners(m', x, {})| + multiset{}[x] {
      NullsPointNowhere(m.ptr, nulls, x);
      OwnersArePointing(m, x, {});
      OwnersArePointing(m', x, {});
      if x == o { NobodyPoints(m, o); }
    }
  }

  lemma NullsPointNowhere(ptr: map<Holder, Option<Obj>>, nulls: map<Holder, Option<Obj>>, x: Obj)
    requires ptr.Keys !! nulls.Keys && forall h :: h in nulls ==> nulls[h] == None
    ensures Pointing(ptr + nulls, x, {}) == Pointing(ptr, x, {})
  {
  }

  lemma NobodyPoints(m: Mem, o: Obj)
    requires Sound(m) && o !in m.count
    ensures Owners(m, o, {}) == {}
  {
  }

  /** A local holder comes into being with a loose reference. */
  lemma LocalMade(m: Mem, h: Holder, t: Option<Obj>)
    requires Counted(m, Ref(t), {}, {}) && h !in m.ptr
    ensures Sound(m.(ptr := m.ptr[h := t], home := m.home[h := None]))
  {
    hide Owners, Distinct;
    var m' := m.(ptr := m.ptr[h := t], home := m.home[h := None]);
    if t.Some? { assert t.value in Ref(t); }
    forall x | x in m'.count ensures m'.count[x] == |Owners(m', x, {})| + multiset{}[x] { MadeOwners(m, h, t, x); }
  }

  lemma MadeOwners(m: Mem, h: Holder, t: Option<Obj>, x: Obj)
    requires h !in m.ptr
    ensures |Owners(m.(ptr := m.ptr[h := t], home := m.home[h := None]), x, {})| == |Owners(m, x, {})| + Ref(t)[x]
  {
    PointingMore(m.ptr, h, t, x);
  }

  lemma Refs(t: Option<Obj>, x: Obj)
    ensures Ref(t)[x] == if t == Some(x) then 1 else 0
  {
  }

  lemma PointingMore(ptr: map<Holder, Option<Obj>>, h: Holder, t: Option<Obj>, x: Obj)
    requires h !in ptr
    ensures |Pointing(ptr[h := t], x, {})| == |Pointing(ptr, x, {})| + Ref(t)[x]
  {
    hide Ref;
    Refs(t, x);
    assert h !in Pointing(ptr, x, {});
    if t == Some(x) {
      assert Pointing(ptr[h := t], x, {}) == Pointing(ptr, x, {}) + {h};
    } else {
      assert Pointing(ptr[h := t], x, {}) == Pointing(ptr, x, {});
    }
  }

  lemma HolderCounts(m: Mem, h: Holder)
    requires Sound(m) && h in m.ptr && m.ptr[h].Some?
    ensures m.ptr[h].value in m.count && m.count[m.ptr[h].value] > 0
  {
    assert h in Owners(m, m.ptr[h].value, {});
  }

  lemma LocalGone(m: Mem, h: Holder)
    requires Sound(m) && h in m.ptr && m.home[h].None?
    ensures Counted(m.(ptr := m.ptr - {h}, home := m.home - {h}), Ref(m.ptr[h]), {}, {})
  {
    hide Owners, Distinct;
    var m' := m.(ptr := m.ptr - {h}, home := m.home - {h});
    forall x | x in m'.count ensures m'.count[x] == |Owners(m', x, {})| + Ref(m.ptr[h])[x] {
      LeftOwners(m, m', {}, h, x);
    }
  }

  /** A holder gives its reference away. */
  lemma Dropped(m: Mem, h: Holder)
    requires Sound(m) && h in m.ptr
    ensures Counted(m.(ptr := m.ptr[h := None]), Ref(m.ptr[h]), {}, {})
  {
    hide Owners, Distinct, Ref;
    var m' := m.(ptr := m.ptr[h := None]);
    forall x ensures x in Ref(m.ptr[h]) <==> m.ptr[h] == Some(x) { Refs(m.ptr[h], x); }
    forall x | x in m'.count ensures m'.count[x] == |Owners(m', x, {})| + Ref(m.ptr[h])[x] {
      LeftOwners(m, m', {}, h, x);
    }
  }

  /** Writing a pointer nobody has counted leaves its object one short. */
  lemma FillUncounted(m: Mem, h: Holder, t: Option<Obj>)
    requires Counted(m, multiset{}, {}, {h}) && h in m.ptr
    ensures Sound(m.(ptr := m.ptr[h := t])) <==> t.None?
    ensures t.Some? && t.value in m.count ==> m.count[t.value] == |Owners(m.(ptr := m.ptr[h := t]), t.value, {})| - 1
  {
    var m' := m.(ptr := m.ptr[h := t]);
    assert multiset{} + Ref(None) == multiset{};
    if t.None? {
      Fill(m, multiset{}, h, t);
    } else {
      FillOwners(m, h, t, t.value);
      assert m'.ptr[h] == t;
    }
  }

  /** Between statements: a count is the number of owners, so an owned object lives and a deleted one has no owner. */
  lemma SoundMeans(m: Mem, o: Obj)
    requires Sound(m)
    ensures o in m.count ==> m.count[o] == |Owners(m, o, {})|
    ensures Owners(m, o, {}) != {} ==> o in m.count && m.count[o] > 0
    ensures o in m.destroyed ==> o !in m.count && Owners(m, o, {}) == {}
    ensures forall i, j :: 0 <= i < j < |m.destroyed| ==> m.destroyed[i] != m.destroyed[j]
  {
    if Owners(m, o, {}) != {} {
      var h :| h in Owners(m, o, {});
      assert m.ptr[h].Some?;
    }
  }

  /** A holder that has been written to, or was deleted, is no longer busy. */
  lemma BusyIsGone(m: Mem, loose: multiset<Obj>, h: Holder)
    requires Counted(m, loose, {}, {h}) && h !in m.ptr
    ensures Counted(m, loose, {}, {})
  {
    forall x ensures Owners(m, x, {}) == Owners(m, x, {h}) { }
  }

  /** A holder goes exactly with the object it is in. */
  lemma SweptHome(m: Mem, m': Mem, loose: multiset<Obj>, h: Holder)
    requires Swept(m, m', loose, {h}) && Counted(m, loose, {}, {}) && h in m.ptr
    ensures h in m'.ptr <==> m.home[h].None? || Held(m, m.home[h].value, loose, {h})
  {
    hide Held, Owners, Distinct;
  }

  lemma SweptFilled(m: Mem, m': Mem, loose: multiset<Obj>, h: Holder, t: Option<Obj>)
    requires Swept(m, m', loose, {h}) && h in m'.ptr
    ensures Swept(m, m'.(ptr := m'.ptr[h := t]), loose, {h})
  {
    hide Held;
    var m'' := m'.(ptr := m'.ptr[h := t]);
    forall o ensures o in m''.destroyed[|m.destroyed|..] <==> Deleted(m, m'', o) {
      assert o in m'.destroyed[|m.destroyed|..] <==> Deleted(m, m', o);
    }
  }

  lemma NothingSwept(m: Mem, loose: multiset<Obj>, busy: set<Holder>)
    requires Counted(m, loose, {}, busy)
    ensures Swept(m, m, loose, busy)
  {
    hide Backed, Distinct, Owners;
    LiveKeep(m, loose, busy);
  }

  /** A reference on its way keeps its object whatever its count. */
  lemma HeldUncounted(m: Mem, t: Obj, x: Obj, busy: set<Holder>)
    requires t in m.count
    ensures Held(m.(count := m.count[t := m.count[t] + 1]), x, multiset{t}, busy) <==> Held(m, x, multiset{t}, busy)
  {
    hide Backed;
    var m' := m.(count := m.count[t := m.count[t] + 1]);
    forall s ensures Keeps(m', s, multiset{t}, busy) <==> Keeps(m, s, multiset{t}, busy) { }
  }

  /** Sweeping from the memory in which t has been counted is sweeping from the one before. */
  lemma SweptUncounted(m: Mem, c: Mem, m': Mem, t: Option<Obj>, h: Holder)
    requires t.None? ==> c == m
    requires t.Some? ==> t.value in m.count && m.count[t.value] >= 0 && c == m.(count := m.count[t.value := m.count[t.value] + 1])
    requires Swept(c, m', Ref(t), {h})
    ensures Swept(m, m', Ref(t), {h})
    ensures forall x :: Held(c, x, Ref(t), {h}) <==> Held(m, x, Ref(t), {h})
  {
    hide Held;
    if t.Some? {
      forall x ensures Held(c, x, Ref(t), {h}) <==> Held(m, x, Ref(t), {h}) { HeldUncounted(m, t.value, x, {h}); }
    }
  }

  lemma CountNotNegative(m: Mem, o: Obj)
    requires Sound(m) && o in m.count
    ensures m.count[o] >= 0
  {
  }

  // ---------- the program as it would run if nothing were ever deleted ----------

  /** What every holder points to, the object it is a member of, and the objects made. */
  datatype Plain = Plain(ptr: map<Holder, Option<Obj>>, home: map<Holder, Option<Obj>>, made: set<Obj>)

  /** Every object in s is pointed to by a local or by a member of an object in s. */
  ghost predicate Supported(p: Plain, s: set<Obj>) {
    s <= p.made && forall x :: x in s ==> Backed(p.ptr, p.home, x, s, {})
  }

  ghost predicate Alive(p: Plain, x: Obj) {
    exists s :: x in s && Supported(p, s)
  }

  /** A local, or a member of an object that is alive. */
  ghost predicate Usable(p: Plain, h: Holder) {
    h in p.ptr && h in p.home && (p.home[h].None? || Alive(p, p.home[h].value))
  }

  ghost predicate WellFormed(p: Plain) {
    p.ptr.Keys == p.home.Keys && forall h :: h in p.home && p.home[h].Some? ==> p.home[h].value in p.made
  }

  /** What a client can write: RefPtr h = new T; RefPtr h = g; h taken over from g; the end of h; h = g; h = null;
      h = temporary g; and f(byRef(h)) with a callee that follows the COM rule and returns what g has. */
  datatype Op =
    | MakeNew(h: Holder, o: Obj, members: set<Holder>)
    | MakeCopy(h: Holder, g: Holder)
    | MakeMove(h: Holder, g: Holder)
    | End(h: Holder)
    | SetTo(h: Holder, g: Holder)
    | SetNull(h: Holder)
    | SetFromTemporary(h: Holder, g: Holder)
    | PassByRef(h: Holder, g: Holder)

  predicate Present(p: Plain, op: Op) {
    match op
    case MakeNew(h, o, members) => true
    case MakeCopy(h, g) => g in p.ptr
    case MakeMove(h, g) => g in p.ptr
    case End(h) => h in p.ptr
    case SetTo(h, g) => g in p.ptr
    case SetNull(h) => true
    case SetFromTemporary(h, g) => g in p.ptr
    case PassByRef(h, g) => g in p.ptr
  }

  function Apply(p: Plain, op: Op): Plain
    requires Present(p, op)
  {
    match op
    case MakeNew(h, o, members) =>
      Plain((p.ptr + Nulls(members))[h := Some(o)], (p.home + Homes(members, o))[h := None], p.made + {o})
    case MakeCopy(h, g) => Plain(p.ptr[h := p.ptr[g]], p.home[h := None], p.made)
    case MakeMove(h, g) => Plain(p.ptr[g := None][h := p.ptr[g]], p.home[h := None], p.made)
    case End(h) => Plain(p.ptr - {h}, p.home - {h}, p.made)
    case SetTo(h, g) => p.(ptr := p.ptr[h := p.ptr[g]])
    case SetNull(h) => p.(ptr := p.ptr[h := None])
    case SetFromTemporary(h, g) => p.(ptr := p.ptr[g := None][h := p.ptr[g]])
    case PassByRef(h, g) => p.(ptr := p.ptr[h := p.ptr[g]])
  }

  function Nulls(members: set<Holder>): map<Holder, Option<Obj>> {
    map h | h in members :: None
  }

  function Homes(members: set<Holder>, o: Obj): map<Holder, Option<Obj>> {
    map h | h in members :: Some(o)
  }

  /** The names used are those of holders and objects that are there, or new ones; and a holder that is written to is
      still there afterwards. */
  ghost predicate Allowed(p: Plain, op: Op) {
    && Present(p, op)
    && match op
       case MakeNew(h, o, members) => o !in p.made && members !! p.ptr.Keys && h !in p.ptr && h !in members
       case MakeCopy(h, g) => h !in p.ptr && Usable(p, g)
       case MakeMove(h, g) => h !in p.ptr && Usable(p, g)
       case End(h) => h in p.home && p.home[h].None?
       case SetTo(h, g) => Usable(p, h) && Usable(p, g) && Usable(Apply(p, op), h)
       case SetNull(h) => Usable(p, h) && Usable(Apply(p, op), h)
       case SetFromTemporary(h, g) => h != g && Usable(p, h) && Usable(p, g) && Usable(Apply(p, op), h)
       case PassByRef(h, g) => Usable(p, h) && Usable(p, g) && Usable(Apply(p, op), h)
  }

  ghost predicate AllAllowed(p: Plain, ops: seq<Op>)
    decreases |ops|
  {
    ops != [] ==> Allowed(p, ops[0]) && AllAllowed(Apply(p, ops[0]), ops[1..])
  }

  ghost function ApplyAll(p: Plain, ops: seq<Op>): Plain
    requires AllAllowed(p, ops)
    decreases |ops|
  {
    if ops == [] then p else ApplyAll(Apply(p, ops[0]), ops[1..])
  }

  /** The counted memory is the plain one less what is no longer alive: holders that can be used have their values, and
      the objects made are there or were deleted as they are alive or not. */
  ghost predicate Refines(m: Mem, p: Plain) {
    && Sound(m) && WellFormed(p)
    && (forall h :: h in m.ptr <==> Usable(p, h))
    && (forall h :: h in m.ptr ==> h in p.ptr && h in p.home && h in m.home && m.ptr[h] == p.ptr[h] && m.home[h] == p.home[h])
    && (forall o :: o in m.count <==> Alive(p, o))
    && (forall o :: o in m.destroyed <==> o in p.made && !Alive(p, o))
    && (forall o :: o in m.count ==> m.count[o] != 0)
  }

  /** Holders in memory are as in the plain program, and one that is not is in an object that is gone. */
  ghost predicate SameHolders(m: Mem, p: Plain) {
    && WellFormed(p) && m.ptr.Keys == m.home.Keys && m.ptr.Keys <= p.ptr.Keys
    && (forall k :: k in m.ptr ==> m.ptr[k] == p.ptr[k] && m.home[k] == p.home[k])
    && (forall k :: k in p.ptr && k !in m.ptr ==> p.home[k].Some? && p.home[k].value !in m.count)
  }

  ghost predicate SameObjects(m: Mem, p: Plain) {
    && (forall o :: o in p.made <==> o in m.count || o in m.destroyed)
    && (forall o :: o in m.count ==> m.count[o] != 0)
  }

  /** An object that was made is deleted exactly if no holder that can still be used points to it. */
  lemma DeletedIff(m: Mem, p: Plain, o: Obj)
    requires Refines(m, p) && o in p.made
    ensures o in m.destroyed <==> !exists h :: Usable(p, h) && p.ptr[h] == Some(o)
  {
    hide Distinct;
    if o in m.count {
      assert Owners(m, o, {}) != {};
      var h :| h in Owners(m, o, {});
      assert Usable(p, h) && p.ptr[h] == Some(o);
    } else {
      forall h | Usable(p, h) ensures p.ptr[h] != Some(o) { assert h in m.ptr; }
    }
  }

  lemma StartsRefined()
    ensures Refines(Mem(map[], map[], map[], []), Plain(map[], map[], {}))
  {
    var p := Plain(map[], map[], {});
    forall o ensures !Alive(p, o) { }
    forall h ensures !Usable(p, h) { }
  }

  lemma RefinesMeans(m: Mem, p: Plain)
    requires Refines(m, p)
    ensures SameHolders(m, p) && SameObjects(m, p)
    ensures forall k :: k in m.ptr && m.ptr[k].Some? ==> m.ptr[k].value in m.count
  {
    hide Alive;
    SoundKeys(m);
    forall k | k in m.ptr && m.ptr[k].Some? ensures m.ptr[k].value in m.count { HolderCounts(m, k); }
    forall o | o in m.count ensures o in p.made { MadeIfAlive(p, o); }
  }

  /** Enough to refine: what the plain program keeps alive is there. */
  lemma Refined(m: Mem, p: Plain)
    requires Sound(m) && SameHolders(m, p) && SameObjects(m, p)
    requires forall o :: Alive(p, o) ==> o in m.count
    ensures Refines(m, p)
  {
    hide Sound, Alive;
    forall o | o in m.count ensures Alive(p, o) { LiveAlive(m, p, o); }
    SoundKeys(m);
    forall h ensures h in m.ptr <==> Usable(p, h) { }
  }

  lemma LiveAlive(m: Mem, p: Plain, o: Obj)
    requires Sound(m) && SameHolders(m, p) && SameObjects(m, p) && o in m.count
    ensures Alive(p, o)
  {
    hide Sound;
    SoundLiveKeep(m);
    var s := m.count.Keys;
    forall x | x in s ensures Backed(p.ptr, p.home, x, s, {}) {
      assert Backed(m.ptr, m.home, x, s, {});
      var r :| r in m.ptr && r in m.home && m.ptr[r] == Some(x) && (m.home[r].None? || m.home[r].value in s);
      assert r in p.ptr;
    }
    assert Supported(p, s);
  }

  lemma SoundLiveKeep(m: Mem)
    requires Sound(m)
    ensures Keeps(m, m.count.Keys, multiset{}, {})
  {
    LiveKeep(m, multiset{}, {});
  }

  lemma MadeIfAlive(p: Plain, x: Obj)
    requires Alive(p, x)
    ensures x in p.made
  {
  }

  lemma SoundKeys(m: Mem)
    requires Sound(m)
    ensures m.ptr.Keys == m.home.Keys
    ensures forall o :: o in m.destroyed ==> o !in m.count
    ensures forall h :: h in m.home && m.home[h].Some? ==> m.home[h].value in m.count
  {
  }

  /** Nothing comes back to life: p' differs from p in holders whose objects are alive, or new. */
  lemma AliveBefore(p: Plain, p': Plain, x: Obj)
    requires WellFormed(p) && Alive(p', x) && x in p.made
    requires forall r :: r in p'.ptr && r in p'.home && p'.ptr[r].Some? ==>
               || (r in p.ptr && r in p.home && p.ptr[r] == p'.ptr[r] && p.home[r] == p'.home[r])
               || p'.ptr[r].value !in p.made || Alive(p, p'.ptr[r].value)
    ensures Alive(p, x)
  {
    var s :| x in s && Supported(p', s);
    var t := set y | y in p.made && (y in s || Alive(p, y));
    forall y | y in t ensures Backed(p.ptr, p.home, y, t, {}) {
      if Alive(p, y) {
        var u :| y in u && Supported(p, u);
        assert u <= t;
        BackedMore(p.ptr, p.home, y, u, t, {});
      } else {
        var r :| r in p'.ptr && r in p'.home && p'.ptr[r] == Some(y) && (p'.home[r].None? || p'.home[r].value in s);
        assert r in p.ptr && p.ptr[r] == Some(y);
      }
    }
    assert Supported(p, t);
  }

  /** What is alive after a statement is held while it releases: m is the memory from which busy is released. */
  lemma AliveIsHeld(m: Mem, p': Plain, x: Obj, loose: multiset<Obj>, busy: set<Holder>)
    requires Alive(p', x) && forall y :: Alive(p', y) ==> y in m.count
    requires forall r :: r in p'.ptr && r in p'.home && p'.ptr[r].Some? && (p'.home[r].None? || p'.home[r].value in m.count) ==>
               || p'.ptr[r].value in loose
               || (r !in busy && r in m.ptr && r in m.home && m.ptr[r] == p'.ptr[r] && m.home[r] == p'.home[r])
    ensures Held(m, x, loose, busy)
  {
    var s :| x in s && Supported(p', s);
    forall y | y in s ensures y in m.count && (m.count[y] == 0 || y in loose || Backed(m.ptr, m.home, y, s, busy)) {
      assert Alive(p', y);
      var r :| r in p'.ptr && r in p'.home && p'.ptr[r] == Some(y) && (p'.home[r].None? || p'.home[r].value in s);
      assert p'.home[r].Some? ==> Alive(p', p'.home[r].value);
    }
    assert Keeps(m, s, loose, busy);
  }

  // ---------- one statement refines the plain one ----------

  function Dropping(ptr: map<Holder, Option<Obj>>, g: Option<Holder>): map<Holder, Option<Obj>> {
    if g.Some? then ptr[g.value := None] else ptr
  }

  function Assigned(p: Plain, g: Option<Holder>, h: Holder, t: Option<Obj>): Plain {
    p.(ptr := Dropping(p.ptr, g)[h := t])
  }

  /** What the plain assignment leaves alive is held while the old pointer is released. */
  lemma AssignedHeld(m: Mem, p: Plain, g: Option<Holder>, h: Holder, t: Option<Obj>, x: Obj)
    requires Refines(m, p) && h in m.ptr && (g.Some? ==> g.value in m.ptr) && (t.Some? ==> Alive(p, t.value))
    requires Alive(Assigned(p, g, h, t), x)
    ensures x in m.count && Held(m.(ptr := Dropping(m.ptr, g)), x, Ref(t), {h})
  {
    hide Sound, Supported, Alive, Keeps;
    var p' := Assigned(p, g, h, t);
    forall y | Alive(p', y) ensures y in m.count {
      MadeIfAlive(p', y);
      AliveBefore(p, p', y);
    }
    forall r | r in p'.ptr && r in p'.home && p'.ptr[r].Some? && (p'.home[r].None? || p'.home[r].value in m.count) && r != h
      ensures r in m.ptr && r in m.home && Dropping(m.ptr, g)[r] == p'.ptr[r] && m.home[r] == p'.home[r]
    {
      assert Usable(p, r);
      SoundKeys(m);
    }
    AliveIsHeld(m.(ptr := Dropping(m.ptr, g)), p', x, Ref(t), {h});
  }

  /** A write to a holder is one the code survives exactly if the holder is still there in the plain program after it. */
  lemma SafeWriteIff(m: Mem, p: Plain, g: Option<Holder>, h: Holder, t: Option<Obj>)
    requires Refines(m, p) && Usable(p, h) && (g.Some? ==> g.value in m.ptr) && (t.Some? ==> Alive(p, t.value))
    ensures h in m.ptr && h in m.home
    ensures Usable(Assigned(p, g, h, t), h) <==>
              m.home[h].None? || Held(m.(ptr := Dropping(m.ptr, g)), m.home[h].value, Ref(t), {h})
  {
    hide Sound, Held, Alive, Refines;
    RefinesMeans(m, p);
    RefinesUsable(m, p, h);
    if m.home[h].Some? {
      if Usable(Assigned(p, g, h, t), h) { AssignedHeld(m, p, g, h, t, m.home[h].value); }
      if Held(m.(ptr := Dropping(m.ptr, g)), m.home[h].value, Ref(t), {h}) { HeldAssigned(m, p, g, h, t); }
    }
  }

  lemma RefinesUsable(m: Mem, p: Plain, h: Holder)
    requires Refines(m, p)
    ensures h in m.ptr <==> Usable(p, h)
  {
  }

  /** What keeps the object of h while h is written keeps it afterwards. */
  lemma HeldAssigned(m: Mem, p: Plain, g: Option<Holder>, h: Holder, t: Option<Obj>)
    requires Refines(m, p) && h in m.ptr && h in m.home && m.home[h].Some? && (g.Some? ==> g.value in m.ptr)
    requires Held(m.(ptr := Dropping(m.ptr, g)), m.home[h].value, Ref(t), {h})
    ensures Alive(Assigned(p, g, h, t), m.home[h].value)
  {
    hide Sound, Refines, SameHolders, Backed, Dropping;
    RefinesMeans(m, p);
    var s :| m.home[h].value in s && Keeps(m.(ptr := Dropping(m.ptr, g)), s, Ref(t), {h});
    forall y | y in s ensures y in p.made && Backed(Assigned(p, g, h, t).ptr, p.home, y, s, {}) {
      BackedAssigned(m, p, g, h, t, s, y);
    }
    assert Supported(Assigned(p, g, h, t), s);
  }

  lemma BackedAssigned(m: Mem, p: Plain, g: Option<Holder>, h: Holder, t: Option<Obj>, s: set<Obj>, y: Obj)
    requires SameHolders(m, p) && h in m.ptr && h in m.home && m.home[h].Some? && m.home[h].value in s
    requires g.Some? ==> g.value in m.ptr
    requires y in Ref(t) || Backed(Dropping(m.ptr, g), m.home, y, s, {h})
    ensures Backed(Assigned(p, g, h, t).ptr, p.home, y, s, {})
  {
    var p' := Assigned(p, g, h, t);
    if y in Ref(t) {
      assert p'.ptr[h] == Some(y) && p'.home[h] == m.home[h];
    } else {
      var q := Dropping(m.ptr, g);
      var r :| r in q && r !in {h} && r in m.home && q[r] == Some(y) && (m.home[r].None? || m.home[r].value in s);
      assert p'.ptr[r] == Some(y) && p'.home[r] == m.home[r];
    }
  }

  lemma AssignedRefines(m: Mem, p: Plain, g: Option<Holder>, h: Holder, t: Option<Obj>, m': Mem)
    requires Refines(m, p) && h in m.ptr && (g.Some? ==> g.value in m.ptr) && (t.Some? ==> Alive(p, t.value))
    requires Sound(m') && Swept(m.(ptr := Dropping(m.ptr, g)), m', Ref(t), {h}) && h in m'.ptr && m'.ptr[h] == t
    requires forall k :: k in m'.ptr && k != h ==> k in m.ptr && m'.ptr[k] == Dropping(m.ptr, g)[k]
    ensures Refines(m', Assigned(p, g, h, t))
  {
    hide Sound, Held, Alive, Refines, Usable, Swept, Dropping, SameHolders;
    forall o | Alive(Assigned(p, g, h, t), o) ensures o in m'.count {
      AssignedHeld(m, p, g, h, t, o);
      SweptHeld(m.(ptr := Dropping(m.ptr, g)), m', Ref(t), {h}, o);
    }
    RefinesMeans(m, p);
    AssignedHolders(m, p, g, h, t, m');
    SweptObjects(m.(ptr := Dropping(m.ptr, g)), m', Ref(t), {h}, p, Assigned(p, g, h, t));
    Refined(m', Assigned(p, g, h, t));
  }

  lemma SweptHeld(m: Mem, m': Mem, loose: multiset<Obj>, busy: set<Holder>, o: Obj)
    requires Swept(m, m', loose, busy) && o in m.count && Held(m, o, loose, busy)
    ensures o in m'.count
  {
  }

  lemma SweptObjects(m: Mem, m': Mem, loose: multiset<Obj>, busy: set<Holder>, p: Plain, p': Plain)
    requires Swept(m, m', loose, busy) && SameObjects(m, p) && p'.made == p.made
    ensures SameObjects(m', p')
  {
    hide Held;
    DestroyedMore(m, m', loose, busy);
  }

  lemma AssignedHolders(m: Mem, p: Plain, g: Option<Holder>, h: Holder, t: Option<Obj>, m': Mem)
    requires SameHolders(m, p) && h in m.ptr && (g.Some? ==> g.value in m.ptr)
    requires Swept(m.(ptr := Dropping(m.ptr, g)), m', Ref(t), {h}) && h in m'.ptr && m'.ptr[h] == t
    requires forall k :: k in m'.ptr && k != h ==> k in m.ptr && m'.ptr[k] == Dropping(m.ptr, g)[k]
    ensures SameHolders(m', Assigned(p, g, h, t))
  {
    hide Sound, Held, Refines, Usable;
  }

  lemma DestroyedMore(m: Mem, m': Mem, loose: multiset<Obj>, busy: set<Holder>)
    requires Swept(m, m', loose, busy)
    ensures forall o :: o in m.count || o in m.destroyed ==> o in m'.count || o in m'.destroyed
    ensures forall o :: o in m'.destroyed ==> o in m.destroyed || o in m.count
  {
    hide Held;
    var n := |m.destroyed|;
    assert m'.destroyed == m.destroyed + m'.destroyed[n..];
    forall o | o in m.count ensures o in m'.count || o in m'.destroyed {
      if Deleted(m, m', o) { assert o in m'.destroyed[n..]; }
    }
  }

  lemma EndedRefines(m: Mem, p: Plain, h: Holder, m': Mem)
    requires Refines(m, p) && Allowed(p, End(h)) && h in m.ptr
    requires Sound(m') && Swept(m.(ptr := m.ptr - {h}, home := m.home - {h}), m', multiset{}, {})
    requires forall k :: k in m'.ptr ==> k in m.ptr && m'.ptr[k] == m.ptr[k]
    ensures Refines(m', Apply(p, End(h)))
  {
    hide Sound, Held, Alive, Refines, Usable, Swept, SameHolders;
    var p' := Apply(p, End(h));
    var m1 := m.(ptr := m.ptr - {h}, home := m.home - {h});
    forall o | Alive(p', o) ensures o in m'.count {
      EndedHeld(m, p, h, o);
      SweptHeld(m1, m', multiset{}, {}, o);
    }
    RefinesMeans(m, p);
    EndedHolders(m, p, h, m');
    SweptObjects(m1, m', multiset{}, {}, p, p');
    Refined(m', p');
  }

  lemma EndedHolders(m: Mem, p: Plain, h: Holder, m': Mem)
    requires SameHolders(m, p) && Present(p, End(h))
    requires Swept(m.(ptr := m.ptr - {h}, home := m.home - {h}), m', multiset{}, {})
    requires forall k :: k in m'.ptr ==> k in m.ptr && m'.ptr[k] == m.ptr[k]
    ensures SameHolders(m', Apply(p, End(h)))
  {
    hide Held;
  }

  lemma EndedHeld(m: Mem, p: Plain, h: Holder, x: Obj)
    requires Refines(m, p) && Allowed(p, End(h)) && Alive(Apply(p, End(h)), x)
    ensures x in m.count && Held(m.(ptr := m.ptr - {h}, home := m.home - {h}), x, multiset{}, {})
  {
    hide Sound, Supported, Alive, Keeps;
    var p' := Apply(p, End(h));
    forall y | Alive(p', y) ensures y in m.count {
      MadeIfAlive(p', y);
      AliveBefore(p, p', y);
    }
    forall r | r in p'.ptr && r in p'.home && p'.ptr[r].Some? && (p'.home[r].None? || p'.home[r].value in m.count)
      ensures r in m.ptr && r in m.home && m.ptr[r] == p'.ptr[r] && m.home[r] == p'.home[r]
    {
      assert Usable(p, r);
      SoundKeys(m);
    }
    AliveIsHeld(m.(ptr := m.ptr - {h}, home := m.home - {h}), p', x, multiset{}, {});
  }

  /** Statements that release nothing: what is alive after them was alive before, or is new. */
  lemma CopiedAlive(p: Plain, op: Op, x: Obj)
    requires WellFormed(p) && Allowed(p, op) && (op.MakeCopy? || op.MakeMove?)
    requires p.ptr[op.g].Some? ==> Alive(p, p.ptr[op.g].value)
    requires Alive(Apply(p, op), x)
    ensures x in p.made && Alive(p, x)
  {
    hide Alive, Usable;
    MadeIfAlive(Apply(p, op), x);
    AliveBefore(p, Apply(p, op), x);
  }

  lemma MadeAlive(p: Plain, op: Op, x: Obj)
    requires WellFormed(p) && Allowed(p, op) && op.MakeNew?
    requires Alive(Apply(p, op), x)
    ensures x == op.o || (x in p.made && Alive(p, x))
  {
    hide Alive, Usable;
    MadeIfAlive(Apply(p, op), x);
    if x != op.o { AliveBefore(p, Apply(p, op), x); }
  }

  lemma RefinesAlive(m: Mem, p: Plain, x: Obj)
    requires Refines(m, p)
    ensures x in m.count <==> Alive(p, x)
  {
  }

  lemma CopiedHolders(m: Mem, p: Plain, op: Op, m': Mem)
    requires SameHolders(m, p) && SameObjects(m, p) && (op.MakeCopy? || op.MakeMove?) && op.g in m.ptr
    requires m'.count.Keys == m.count.Keys && m'.destroyed == m.destroyed && m'.home == m.home[op.h := None]
    requires forall o :: o in m'.count ==> m'.count[o] != 0
    requires m'.ptr == if op.MakeCopy? then m.ptr[op.h := m.ptr[op.g]] else m.ptr[op.g := None][op.h := m.ptr[op.g]]
    ensures Present(p, op) && p.ptr[op.g] == m.ptr[op.g] && SameHolders(m', Apply(p, op)) && SameObjects(m', Apply(p, op))
  {
    if op.MakeMove? {
      var q := p.ptr[op.g := None][op.h := p.ptr[op.g]];
      assert q.Keys == p.ptr.Keys + {op.h};
    }
  }

  lemma CopiedRefines(m: Mem, p: Plain, op: Op, m': Mem)
    requires Refines(m, p) && Allowed(p, op) && (op.MakeCopy? || op.MakeMove?) && op.g in m.ptr
    requires Sound(m') && m'.count.Keys == m.count.Keys && m'.destroyed == m.destroyed && m'.home == m.home[op.h := None]
    requires forall o :: o in m'.count ==> m'.count[o] != 0
    requires m'.ptr == if op.MakeCopy? then m.ptr[op.h := m.ptr[op.g]] else m.ptr[op.g := None][op.h := m.ptr[op.g]]
    ensures Refines(m', Apply(p, op))
  {
    hide Sound, Alive, Refines, Usable, SameHolders, SameObjects;
    RefinesMeans(m, p);
    CopiedHolders(m, p, op, m');
    assert WellFormed(p) by { SameWellFormed(m, p); }
    if m.ptr[op.g].Some? { RefinesAlive(m, p, m.ptr[op.g].value); }
    forall o | Alive(Apply(p, op), o) ensures o in m'.count {
      CopiedAlive(p, op, o);
      RefinesAlive(m, p, o);
    }
    Refined(m', Apply(p, op));
  }

  lemma SameWellFormed(m: Mem, p: Plain)
    requires SameHolders(m, p)
    ensures WellFormed(p)
  {
  }

  lemma MadeHolders(m: Mem, p: Plain, op: Op, m': Mem)
    requires SameHolders(m, p) && SameObjects(m, p) && op.MakeNew? && op.h !in p.ptr && op.members !! p.ptr.Keys && op.o !in p.made
    requires m'.count == m.count[op.o := 1] && m'.destroyed == m.destroyed
    requires m'.ptr == (m.ptr + Nulls(op.members))[op.h := Some(op.o)]
    requires m'.home == (m.home + Homes(op.members, op.o))[op.h := None]
    ensures SameHolders(m', Apply(p, op)) && SameObjects(m', Apply(p, op))
  {
  }

  lemma MadeRefines(m: Mem, p: Plain, op: Op, m': Mem)
    requires Refines(m, p) && op.MakeNew? && Allowed(p, op)
    requires Sound(m') && m'.count == m.count[op.o := 1] && m'.destroyed == m.destroyed
    requires m'.ptr == (m.ptr + Nulls(op.members))[op.h := Some(op.o)]
    requires m'.home == (m.home + Homes(op.members, op.o))[op.h := None]
    ensures Refines(m', Apply(p, op))
  {
    hide Sound, Alive, Refines, Usable, SameHolders, SameObjects;
    RefinesMeans(m, p);
    assert WellFormed(p) by { SameWellFormed(m, p); }
    MadeHolders(m, p, op, m');
    forall o | Alive(Apply(p, op), o) ensures o in m'.count {
      MadeAlive(p, op, o);
      RefinesAlive(m, p, o);
    }
    Refined(m', Apply(p, op));
  }

  /** The holders an allowed statement names are in memory, and point to live objects. */
  lemma AllowedIsThere(m: Mem, p: Plain, op: Op)
    requires Refines(m, p) && Allowed(p, op)
    ensures Sound(m) && m.ptr.Keys == m.home.Keys
    ensures op.MakeNew? ==>
              op.o !in m.count && op.o !in m.destroyed && op.members !! m.ptr.Keys && op.h !in m.ptr && op.h !in op.members
    ensures op.MakeCopy? || op.MakeMove? ==> op.h !in m.ptr
    ensures op.End? || op.SetTo? || op.SetNull? || op.SetFromTemporary? || op.PassByRef? ==> op.h in m.ptr
    ensures op.End? ==> m.home[op.h].None?
    ensures op.SetFromTemporary? ==> op.h != op.g
    ensures op.MakeCopy? || op.MakeMove? || op.SetTo? || op.SetFromTemporary? || op.PassByRef? ==>
              op.g in m.ptr && m.ptr[op.g] == p.ptr[op.g]
    ensures forall k :: k in m.ptr && m.ptr[k].Some? ==> m.ptr[k].value in m.count && Alive(p, m.ptr[k].value)
    ensures forall o :: o in m.count ==> m.count[o] > 0
    ensures op.SetTo? || op.SetNull? || op.SetFromTemporary? || op.PassByRef? ==>
              && Apply(p, op) == Assigned(p, if op.SetFromTemporary? then Some(op.g) else None, op.h, if op.SetNull? then None else p.ptr[op.g])
              && Usable(p, op.h) && Usable(Apply(p, op), op.h)
  {
    hide Distinct, Owners;
    if op.MakeNew? && op.o in m.count { MadeIfAlive(p, op.o); }
    if op.End? { assert Usable(p, op.h); }
  }

  // ---------- the objects and holders in memory ----------

  class Heap {
    var count: map<Obj, int>
    var ptr: map<Holder, Option<Obj>>
    var home: map<Holder, Option<Obj>>
    var destroyed: seq<Obj>

    ghost function View(): Mem
      reads this
    {
      Mem(count, ptr, home, destroyed)
    }

    constructor ()
      ensures Sound(View()) && View() == Mem(map[], map[], map[], [])
      ensures Refines(View(), Plain(map[], map[], {}))
    {
      count, ptr, home, destroyed := map[], map[], map[], [];
      new;
      StartsRefined();
    }

    method AddRef(o: Obj, ghost loose: multiset<Obj>)
      requires Counted(View(), loose, {}, {}) && o in count
      modifies this`count
      ensures View() == old(View()).(count := old(count)[o := old(count)[o] + 1])
      ensures Counted(View(), loose + multiset{o}, {}, {})
    {
      hide Counted;
      CountUp(View(), loose, {}, {}, o);
      count := count[o := count[o] + 1];
    }

    /** Release: at zero the object is deleted, and its members are destroyed in turn. busy: holders whose old pointer
        is being released, and who have not got their new one. */
    method Release(o: Obj, ghost loose: multiset<Obj>, ghost dying: set<Obj>, busy: set<Holder>)
      requires Counted(View(), loose + multiset{o}, dying, busy) && o in count
      modifies this
      ensures Counted(View(), loose, dying, busy) && Kept(old(View()), View()) && KeepsAll(old(View()), View(), loose, busy)
      ensures dying == {} ==> Swept(old(View()), View(), loose, busy)
      ensures old(count)[o] > 1 ==> View() == old(View()).(count := old(count)[o := old(count)[o] - 1])
      ensures old(count)[o] == 1 ==> o !in count
      decreases |count|, 0
    {
      hide Counted, Kept, Owners, Members, KeepsAll, Swept;
      ghost var start := View();
      Positive(start, loose, dying, busy, o);
      if count[o] > 1 {
        CountDown(start, loose, dying, busy, o);
        KeptCount(start, o);
        KeepsAllCount(start, loose, dying, busy, o);
        count := count[o := count[o] - 1];
      } else {
        LastGone(start, loose, dying, busy, o);
        KeptDelete(start, o);
        KeepsAllDelete(start, loose, dying, busy, o);
        OneFewer(count, o);
        count := count - {o};
        destroyed := destroyed + [o];
        DropMembers(o, loose, dying, busy, start);
        AllGone(View(), loose, dying + {o}, busy, o);
        NotDying(start, loose + multiset{o}, dying, busy, o);
        assert dying + {o} - {o} == dying;
      }
      if dying == {} { ReleaseSweeps(start, View(), loose, busy); }
    }

    /** The destructors of the members of o, which has just been deleted. One that is busy has already released what it
        points to; the write that follows is then one to freed memory, and the caller finds its holder gone. */
    method DropMembers(o: Obj, ghost loose: multiset<Obj>, ghost dying: set<Obj>, busy: set<Holder>, ghost start: Mem)
      requires Counted(View(), loose, dying + {o}, busy) && Kept(start, View()) && Deleted(start, View(), o)
      requires KeepsAll(start, View(), loose, busy)
      modifies this
      ensures Counted(View(), loose, dying + {o}, busy) && Kept(start, View()) && KeepsAll(start, View(), loose, busy)
      ensures Members(View(), o) == {} && o !in count
      decreases |count|, 1
    {
      hide Counted, Kept, Owners, KeepsAll, Swept;
      ghost var size := |count|;
      var left := set h | h in home && home[h] == Some(o);
      assert left == Members(View(), o);
      while left != {}
        invariant Counted(View(), loose, dying + {o}, busy) && Kept(start, View()) && KeepsAll(start, View(), loose, busy)
        invariant left == Members(View(), o) && o !in count && |count| <= size
        decreases |left|
      {
        var h :| h in left;
        ghost var before := View();
        IsMember(before, o, h);
        MemberGone(before, loose, dying + {o}, busy, h);
        KeptDrop(start, before, h);
        KeepsAllMember(before, loose, busy, h);
        MembersDropped(before, o, h);
        var t := if h in busy then None else ptr[h];
        ptr := ptr - {h};
        home := home - {h};
        KeepsAllTwice(start, before, View(), loose, busy);
        if t.Some? {
          LooseLives(View(), loose, t.value, dying + {o}, busy);
          ghost var dropped := View();
          Release(t.value, loose, dying + {o}, busy);
          KeptTwice(start, dropped, View());
          KeepsAllTwice(start, dropped, View(), loose, busy);
          MembersKept(dropped, View(), o);
        } else {
          assert loose + multiset{} == loose;
        }
        left := left - {h};
      }
    }

    /** new T with its member RefPtrs; o is an address not used before. */
    method New(o: Obj, members: set<Holder>)
      requires Sound(View()) && o !in count && o !in destroyed && members !! ptr.Keys
      modifies this
      ensures Sound(View()) && count == old(count)[o := 0] && destroyed == old(destroyed)
      ensures ptr == old(ptr) + Nulls(members) && home == old(home) + Homes(members, o)
    {
      hide Sound;
      NewSound(View(), o, Nulls(members), Homes(members, o));
      count := count[o := 0];
      ptr := ptr + Nulls(members);
      home := home + Homes(members, o);
    }

    /** ref: AddRef if there is something to add to. */
    method TakeRef(t: Option<Obj>)
      requires Sound(View()) && (t.Some? ==> t.value in count)
      modifies this`count
      ensures Counted(View(), Ref(t), {}, {})
      ensures t.None? ==> View() == old(View())
      ensures t.Some? ==> View() == old(View()).(count := old(count)[t.value := old(count)[t.value] + 1])
    {
      hide Counted;
      if t.Some? {
        AddRef(t.value, multiset{});
        assert multiset{} + multiset{t.value} == Ref(t);
      }
    }

    /** unref. */
    method DropRef(t: Option<Obj>, ghost loose: multiset<Obj>, busy: set<Holder>)
      requires Counted(View(), loose + Ref(t), {}, busy)
      modifies this
      ensures Counted(View(), loose, {}, busy) && (t.None? ==> View() == old(View()))
      ensures Swept(old(View()), View(), loose, busy)
      ensures forall g :: g in ptr ==> g in old(ptr) && ptr[g] == old(ptr)[g]
      ensures t.Some? ==> t.value in old(count) && (t.value in count <==> old(count)[t.value] > 1)
      ensures t.Some? && t.value in count ==> View() == old(View()).(count := old(count)[t.value := old(count)[t.value] - 1])
    {
      hide Counted, KeepsAll, Swept;
      if t.Some? {
        LooseLives(View(), loose, t.value, {}, busy);
        Positive(View(), loose, {}, busy, t.value);
        Release(t.value, loose, {}, busy);
      } else {
        assert loose + Ref(t) == loose;
        NothingSwept(View(), loose, busy);
      }
    }

    /** RefPtr(T*), RefPtr(const RefPtr&), TemporaryRef(T*): a new local holder with a reference of its own. */
    method Construct(h: Holder, t: Option<Obj>)
      requires Sound(View()) && h !in ptr && (t.Some? ==> t.value in count)
      modifies this
      ensures Sound(View()) && ptr == old(ptr)[h := t] && home == old(home)[h := None] && destroyed == old(destroyed)
      ensures count == if t.None? then old(count) else old(count)[t.value := old(count)[t.value] + 1]
    {
      hide Counted;
      TakeRef(t);
      LocalMade(View(), h, t);
      ptr := ptr[h := t];
      home := home[h := None];
    }

    /** RefPtr(const TemporaryRef&) and forget: a new local holder takes over what g has. */
    method Move(h: Holder, g: Holder)
      requires Sound(View()) && h !in ptr && g in ptr
      modifies this
      ensures Sound(View()) && ptr == old(ptr)[g := None][h := old(ptr)[g]] && home == old(home)[h := None]
      ensures count == old(count) && destroyed == old(destroyed)
    {
      hide Counted;
      var tmp := ptr[g];
      Dropped(View(), g);
      ptr := ptr[g := None];
      LocalMade(View(), h, tmp);
      ptr := ptr[h := tmp];
      home := home[h := None];
    }

    /** ~RefPtr and ~TemporaryRef of a local. */
    method Destruct(h: Holder)
      requires Sound(View()) && h in ptr && h in home && home[h].None?
      modifies this
      ensures Sound(View()) && Swept(old(View().(ptr := ptr - {h}, home := home - {h})), View(), multiset{}, {})
      ensures forall g :: g in ptr ==> g in old(ptr) && ptr[g] == old(ptr)[g]
      ensures old(ptr)[h].Some? ==> (old(ptr)[h].value in count <==> old(count)[old(ptr)[h].value] > 1)
    {
      hide Counted, Swept;
      var t := ptr[h];
      LocalGone(View(), h);
      ptr := ptr - {h};
      home := home - {h};
      assert multiset{} + Ref(t) == Ref(t);
      DropRef(t, multiset{}, {});
    }

    /** assign: the old pointer is released before the new one is written. counted: the new one has been counted. The
        write is one to freed memory (not ok) exactly if h is a member of an object that only h itself keeps. */
    method Assign(h: Holder, t: Option<Obj>, ghost counted: bool) returns (ok: bool)
      requires Counted(View(), if counted then Ref(t) else multiset{}, {}, {}) && h in ptr && h in home
      modifies this
      ensures ok <==> old(home)[h].None? || Held(old(View()), old(home)[h].value, if counted then Ref(t) else multiset{}, {h})
      ensures Swept(old(View()), View(), if counted then Ref(t) else multiset{}, {h})
      ensures ok ==> h in ptr && ptr[h] == t && (Sound(View()) <==> counted || t.None?)
      ensures !ok ==> h !in ptr && Counted(View(), if counted then Ref(t) else multiset{}, {}, {})
      ensures forall g :: g in ptr && g != h ==> g in old(ptr) && ptr[g] == old(ptr)[g]
      ensures old(ptr)[h].Some? ==> old(ptr)[h].value in old(count)
      ensures old(ptr)[h].Some? ==> (old(ptr)[h].value in count <==> old(count)[old(ptr)[h].value] > 1)
      ensures old(ptr)[h].None? ==> View() == old(View()).(ptr := old(ptr)[h := t])
      ensures old(ptr)[h].Some? && old(ptr)[h].value in count ==>
                View() == old(View()).(ptr := old(ptr)[h := t],
                                       count := old(count)[old(ptr)[h].value := old(count)[old(ptr)[h].value] - 1])
    {
      hide Counted, Held, Swept;
      ghost var loose := if counted then Ref(t) else multiset{};
      ghost var before := View();
      var was := ptr[h];
      MakeBusy(before, loose, h);
      DropRef(was, loose, {h});
      SweptHome(before, View(), loose, h);
      ok := h in ptr;
      if ok {
        SweptFilled(before, View(), loose, h, t);
        if counted {
          assert multiset{} + Ref(t) == Ref(t);
          Fill(View(), multiset{}, h, t);
        } else {
          FillUncounted(View(), h, t);
        }
        ptr := ptr[h := t];
      } else {
        BusyIsGone(View(), loose, h);
      }
    }

    /** operator=(T*) and operator=(const RefPtr&): the new object is counted first, so assigning a holder to itself
        changes nothing. */
    method AssignPtr(h: Holder, t: Option<Obj>) returns (ok: bool)
      requires Sound(View()) && h in ptr && h in home && (t.Some? ==> t.value in count)
      modifies this
      ensures ok <==> old(home)[h].None? || Held(old(View()), old(home)[h].value, Ref(t), {h})
      ensures Swept(old(View()), View(), Ref(t), {h})
      ensures ok ==> Sound(View()) && h in ptr && ptr[h] == t
      ensures t == old(ptr)[h] ==> ok && View() == old(View())
      ensures forall g :: g in ptr && g != h ==> g in old(ptr) && ptr[g] == old(ptr)[g]
    {
      hide Counted, Held, Swept;
      ghost var before := View();
      if ptr[h].Some? { HolderCounts(before, h); }
      if t.Some? { CountNotNegative(before, t.value); }
      TakeRef(t);
      ghost var counted := View();
      ok := Assign(h, t, true);
      SweptUncounted(before, counted, View(), t, h);
      if t == before.ptr[h] {
        assert ptr == before.ptr;
        assert t.Some? ==> count == before.count;
      }
    }

    /** operator=(const TemporaryRef&): the temporary g drops what it has, uncounted, and h takes it. */
    method AssignTemporary(h: Holder, g: Holder) returns (ok: bool)
      requires Sound(View()) && g in ptr && h in ptr && h in home && h != g
      modifies this
      ensures var before := old(View().(ptr := ptr[g := None]));
              && (ok <==> old(home)[h].None? || Held(before, old(home)[h].value, Ref(old(ptr)[g]), {h}))
              && Swept(before, View(), Ref(old(ptr)[g]), {h})
      ensures ok ==> Sound(View()) && h in ptr && ptr[h] == old(ptr)[g]
      ensures forall k :: k in ptr && k != h ==> k in old(ptr) && ptr[k] == if k == g then None else old(ptr)[k]
    {
      hide Counted, Held, Swept;
      var tmp := ptr[g];
      Dropped(View(), g);
      ptr := ptr[g := None];
      ok := Assign(h, tmp, true);
    }

    /** What byRef does around a call that leaves t in the out-parameter: with a reference added for the caller, as the
        COM rule asks, the outcome is an assignment. Otherwise the counts are wrong; when the callee just leaves the
        parameter as it was, h is left pointing to a deleted object exactly if h was its only owner. */
    method ByRef(h: Holder, t: Option<Obj>, addsRef: bool) returns (ok: bool)
      requires Sound(View()) && h in ptr && h in home && (t.Some? ==> t.value in count)
      modifies this
      ensures ok <==> old(home)[h].None? || Held(old(View()), old(home)[h].value, if addsRef then Ref(t) else multiset{}, {h})
      ensures Swept(old(View()), View(), if addsRef then Ref(t) else multiset{}, {h})
      ensures ok ==> h in ptr && ptr[h] == t && (Sound(View()) <==> addsRef || t.None?)
      ensures addsRef && t == old(ptr)[h] ==> ok && View() == old(View())
      ensures !addsRef && t.Some? && t == old(ptr)[h] ==> (t.value in count <==> old(count)[t.value] > 1)
      ensures forall g :: g in ptr && g != h ==> g in old(ptr) && ptr[g] == old(ptr)[g]
    {
      hide Counted, Held, Swept;
      ghost var before := View();
      if addsRef {
        ok := AssignPtr(h, t);
      } else {
        if ptr[h].Some? { HolderCounts(before, h); }
        ok := Assign(h, t, false);
      }
    }

    /** Any run of statements: the counted memory has, in every holder that can still be used, what the plain program has
        there; and at its end exactly the objects that are no longer alive have been deleted, each once. */
    method Run(ops: seq<Op>, ghost p: Plain)
      requires Refines(View(), p) && AllAllowed(p, ops)
      modifies this
      ensures Refines(View(), ApplyAll(p, ops))
    {
      hide Refines, Apply, Usable;
      var n := 0;
      ghost var q := p;
      while n < |ops|
        invariant n <= |ops| && Refines(View(), q) && AllAllowed(q, ops[n..])
        invariant ApplyAll(q, ops[n..]) == ApplyAll(p, ops)
      {
        assert ops[n..][0] == ops[n] && ops[n..][1..] == ops[n + 1..];
        Perform(ops[n], q);
        q := Apply(q, ops[n]);
        n := n + 1;
      }
      assert ops[n..] == [];
    }

    method Perform(op: Op, ghost p: Plain)
      requires Refines(View(), p) && Allowed(p, op)
      modifies this
      ensures Refines(View(), Apply(p, op))
    {
      hide Counted, Sound, Alive, Held, Swept, Refines, Allowed, Usable, Apply, Assigned;
      ghost var before := View();
      AllowedIsThere(before, p, op);
      match op
      case MakeNew(h, o, members) =>
        New(o, members);
        Construct(h, Some(o));
        MadeRefines(before, p, op, View());
      case MakeCopy(h, g) =>
        Construct(h, ptr[g]);
        CopiedRefines(before, p, op, View());
      case MakeMove(h, g) =>
        Move(h, g);
        CopiedRefines(before, p, op, View());
      case End(h) =>
        Destruct(h);
        EndedRefines(before, p, h, View());
      case SetTo(_, _) => PerformAssignment(op, p);
      case SetNull(_) => PerformAssignment(op, p);
      case SetFromTemporary(_, _) => PerformAssignment(op, p);
      case PassByRef(_, _) => PerformAssignment(op, p);
    }

    method PerformAssignment(op: Op, ghost p: Plain)
      requires Refines(View(), p) && Allowed(p, op)
      requires op.SetTo? || op.SetNull? || op.SetFromTemporary? || op.PassByRef?
      modifies this
      ensures Refines(View(), Apply(p, op))
    {
      hide Counted, Sound, Alive, Held, Swept, Refines, Allowed, Usable, Apply, Assigned;
      ghost var before := View();
      AllowedIsThere(before, p, op);
      match op
      case SetTo(h, g) =>
        SafeWriteIff(before, p, None, h, ptr[g]);
        var ok := AssignPtr(h, ptr[g]);
        AssignedRefines(before, p, None, h, before.ptr[g], View());
      case SetNull(h) =>
        SafeWriteIff(before, p, None, h, None);
        var ok := AssignPtr(h, None);
        AssignedRefines(before, p, None, h, None, View());
      case SetFromTemporary(h, g) =>
        SafeWriteIff(before, p, Some(g), h, ptr[g]);
        var ok := AssignTemporary(h, g);
        AssignedRefines(before, p, Some(g), h, before.ptr[g], View());
      case PassByRef(h, g) =>
        SafeWriteIff(before, p, None, h, ptr[g]);
        var ok := ByRef(h, ptr[g], true);
        AssignedRefines(before, p, None, h, before.ptr[g], View());
    }
  }
}
