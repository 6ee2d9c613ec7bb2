/** MozZipFile.py: no record is lost track of while the file is written to, and close leaves the listed records one behind
    the other. */
module PackedZip {
  import opened Basics
  import opened LittleEndian
  import opened ZipStruct
  import opened ZipFormats
  import opened BinaryFile
  import opened Sorting
  import opened MozZip

  // ---------- what a call does to the lists ----------

  predicate Held(x: Archive, z: ZipInfo) {
    z in x.live || z in x.gone
  }

  /** A listed or retired record starts there. */
  ghost predicate StartsAt(x: Archive, off: nat) {
    exists z :: Held(x, z) && z.headerOffset == off
  }

  /** Other names keep their entries; the entry of this name is retired and a new one listed at the end of the records, or
      the new one takes its place. */
  ghost predicate Relists(a: Archive, b: Archive, name: Bytes, z0: ZipInfo) {
    && z0.filename == name && NoDuplicates(b.live) && (forall z :: z in b.live <==> z == z0 || (z in a.live && z.filename != name))
    && ((z0.headerOffset == a.end && forall z :: z in b.gone <==> z in a.gone || (z in a.live && z.filename == name))
        || (b.gone == a.gone && exists z :: z in a.live && z.filename == name && z.headerOffset == z0.headerOffset))
  }

  /** Where the new record goes. */
  function WrittenAt(a: Archive, name: Bytes, payload: Bytes, stored: bool): nat {
    var i := LastIndex(a.live, name);
    if i >= 0 && (i + 1 == |a.live| || (stored && a.live[i].compressSize == |payload|)) then a.live[i].headerOffset else a.end
  }

  lemma StepRelists(a: Archive, name: Bytes, payload: Bytes, stored: bool, attrs: Attrs)
    requires NoDuplicates(a.live)
    ensures Relists(a, WriteStep(a, name, payload, stored, attrs), name, ZipInfo(name, WrittenAt(a, name, payload, stored), |payload|))
  {
    hide NewRecord, SortBy, RemoveAt, Overwrite;
    var i := LastIndex(a.live, name);
    var z0 := ZipInfo(name, WrittenAt(a, name, payload, stored), |payload|);
    if i < 0 {
      RelistNoDuplicates(a.live, z0);
    } else {
      RestMembers(a.live, i);
      RelistNoDuplicates(RemoveAt(a.live, i), z0);
      assert a.live[i] in a.live;
      forall z | z in a.live && z.filename == name ensures z == a.live[i] { NamesIdentify(a.live, z, a.live[i]); }
    }
  }

  /** A record held in one archive has in the other its own name and place, itself or written over. */
  ghost predicate NoneForgotten(a: Archive, b: Archive) {
    forall z :: Held(a, z) ==> exists y :: Held(b, y) && y.filename == z.filename && y.headerOffset == z.headerOffset
  }

  /** Between calls no record of the file is forgotten: it is listed, or retired for close to drop, or another record of
      the same name has been written over it. */
  lemma {:induction false} RunForgetsNone(a: Archive, stored: bool, ops: seq<Write>)
    requires NoDuplicates(a.live)
    ensures NoneForgotten(a, Run(a, stored, ops))
    ensures forall z :: z in a.gone ==> z in Run(a, stored, ops).gone
    decreases |ops|
  {
    hide NoDuplicates, WriteStep, WrittenAt;
    if ops != [] {
      var b := WriteStep(a, ops[0].name, ops[0].payload, stored, ops[0].attrs);
      StepRelists(a, ops[0].name, ops[0].payload, stored, ops[0].attrs);
      RelistsForgetsNone(a, b, ops[0].name, ZipInfo(ops[0].name, WrittenAt(a, ops[0].name, ops[0].payload, stored), |ops[0].payload|));
      RunForgetsNone(b, stored, ops[1..]);
      ForgottenBy(a, b, Run(a, stored, ops));
    }
  }

  lemma RelistsForgetsNone(a: Archive, b: Archive, name: Bytes, z0: ZipInfo)
    requires NoDuplicates(a.live) && Relists(a, b, name, z0)
    ensures NoneForgotten(a, b)
    ensures forall off :: StartsAt(b, off) <==> StartsAt(a, off) || off == z0.headerOffset
  {
    forall z | Held(a, z) ensures exists y :: Held(b, y) && y.filename == z.filename && y.headerOffset == z.headerOffset {
      if z in a.live && z.filename == name && !Held(b, z) {
        var y :| y in a.live && y.filename == name && y.headerOffset == z0.headerOffset;
        NamesIdentify(a.live, y, z);
        assert Held(b, z0);
      } else {
        assert Held(b, z);
      }
    }
    assert Held(b, z0);
    forall off | StartsAt(b, off) && off != z0.headerOffset ensures StartsAt(a, off) {
      var z :| Held(b, z) && z.headerOffset == off;
      assert Held(a, z);
    }
  }

  lemma ForgottenBy(a: Archive, b: Archive, c: Archive)
    requires NoneForgotten(a, b) && NoneForgotten(b, c)
    ensures NoneForgotten(a, c)
  {
    forall z | Held(a, z) ensures exists y :: Held(c, y) && y.filename == z.filename && y.headerOffset == z.headerOffset {
      var y :| Held(b, y) && y.filename == z.filename && y.headerOffset == z.headerOffset;
      var x :| Held(c, x) && x.filename == y.filename && x.headerOffset == y.headerOffset;
    }
  }

  // ---------- the records while the file is open ----------

  /** The next record behind the one at off starts at e, or e is the end of the records. */
  ghost predicate NextAt(x: Archive, off: nat, e: nat) {
    && off < e <= x.end && (e == x.end || StartsAt(x, e))
    && forall o: nat :: StartsAt(x, o) ==> o <= off || e <= o
  }

  /** How far a record without an extra field reaches. */
  function PlainEnd(z: ZipInfo): nat { z.headerOffset + 30 + |z.filename| + z.compressSize }

  /** What may be left between a record and the next: nothing, or, when an uncompressed member has been written over with
      one of the same size, as much as its local header had for an extra field when the archive was opened. */
  ghost predicate GapOk(a0: Archive, stored: bool, z: ZipInfo, g: int) {
    g == 0 || (stored && exists y :: y in a0.live && y.filename == z.filename && y.compressSize == z.compressSize &&
                                     g == RecordEnd(a0.data, y) - PlainEnd(y))
  }

  /** A record of the archive as it was opened, or one written since, in the room up to e. */
  ghost predicate InSlot(a0: Archive, stored: bool, data: Bytes, z: ZipInfo, e: nat) {
    || (z in a0.live && RecordEnd(data, z) == RecordEnd(a0.data, z) == e)
    || (RecordEnd(data, z) == PlainEnd(z) <= e && GapOk(a0, stored, z, e - PlainEnd(z)))
  }

  ghost predicate HasSlot(a0: Archive, stored: bool, x: Archive, z: ZipInfo) {
    exists e :: NextAt(x, z.headerOffset, e) && InSlot(a0, stored, x.data, z, e)
  }

  /** Listed and retired records lie one behind the other from the start of the file to the end of the records. */
  ghost predicate Tiled(a0: Archive, stored: bool, x: Archive) {
    (x.end == 0 || StartsAt(x, 0)) && forall z :: z in x.live ==> HasSlot(a0, stored, x, z)
  }

  /** An archive as it is opened: its records lie one behind the other. */
  ghost predicate Adjacent(a: Archive) {
    a.gone == [] && (a.end == 0 || StartsAt(a, 0)) && forall z :: z in a.live ==> NextAt(a, z.headerOffset, RecordEnd(a.data, z))
  }

  lemma HeldBelow(a: Archive, z: ZipInfo)
    requires Valid(a) && Held(a, z)
    ensures z.headerOffset < a.end
  {
    if z in a.gone { assert a.live[|a.live| - 1] in a.live; }
    LiveInFile(a, if z in a.live then z else a.live[|a.live| - 1]);
  }

  lemma StartsBelow(a: Archive)
    requires Valid(a)
    ensures forall off: nat :: StartsAt(a, off) ==> off < a.end
  {
    forall off: nat | StartsAt(a, off) ensures off < a.end {
      var z :| Held(a, z) && z.headerOffset == off;
      HeldBelow(a, z);
    }
  }

  lemma RecordSize()
    ensures SizeOf(LOCAL_WIDTHS) == 30
  {
    FixedSizes();
  }

  /** A member the call does not concern keeps its slot. */
  lemma SlotKept(a0: Archive, stored: bool, a: Archive, b: Archive, name: Bytes, z0: ZipInfo, z: ZipInfo)
    requires Valid(a) && Relists(a, b, name, z0) && z in a.live && z in b.live && z != z0
    requires HasSlot(a0, stored, a, z) && SameMember(a.data, b.data, z)
    requires || z0.headerOffset == a.end < b.end
             || (StartsAt(a, z0.headerOffset) && (b.end == a.end || z.headerOffset < z0.headerOffset < b.end))
    ensures HasSlot(a0, stored, b, z)
  {
    hide RecordEnd, MemberBytes, Valid, Relists;
    var e: nat :| NextAt(a, z.headerOffset, e) && InSlot(a0, stored, a.data, z, e);
    ValidNoDuplicates(a);
    RelistsForgetsNone(a, b, name, z0);
    StartsBelow(a);
    assert NextAt(b, z.headerOffset, e);
  }

  lemma AppendTiled(a0: Archive, stored: bool, a: Archive, rest: seq<ZipInfo>, gone: seq<ZipInfo>, name: Bytes, payload: Bytes,
                    attrs: Attrs)
    requires Valid(a) && Packable(name, payload, attrs) && Tiled(a0, stored, a)
    requires Relists(a, AppendRecord(a, rest, gone, name, payload, attrs), name, ZipInfo(name, a.end, |payload|))
    ensures Tiled(a0, stored, AppendRecord(a, rest, gone, name, payload, attrs))
  {
    hide RecordEnd, MemberBytes, NewRecord, Packable, Relists, SortBy, HasSlot;
    var b, z0 := AppendRecord(a, rest, gone, name, payload, attrs), ZipInfo(name, a.end, |payload|);
    OverwrittenRecord(a.data, a.end, name, payload, attrs);
    RecordSize();
    ValidNoDuplicates(a);
    RelistsForgetsNone(a, b, name, z0);
    StartsBelow(a);
    NewSlot(a0, stored, b, z0, b.end);
    forall z | z in b.live && z != z0 ensures HasSlot(a0, stored, b, z) {
      RelistedFrom(a, b, name, z0, z);
      MemberUntouched(a.data, a.end, b.data, z);
      SlotKept(a0, stored, a, b, name, z0, z);
    }
  }

  lemma RelistedFrom(a: Archive, b: Archive, name: Bytes, z0: ZipInfo, z: ZipInfo)
    requires Relists(a, b, name, z0) && z in b.live && z != z0
    ensures z in a.live && z.filename != name
  {
  }

  /** The record just written, in the room up to e. */
  lemma NewSlot(a0: Archive, stored: bool, b: Archive, z0: ZipInfo, e: nat)
    requires NextAt(b, z0.headerOffset, e)
    requires RecordEnd(b.data, z0) == PlainEnd(z0) <= e && GapOk(a0, stored, z0, e - PlainEnd(z0))
    ensures HasSlot(a0, stored, b, z0)
  {
  }

  lemma OverwriteLastTiled(a0: Archive, stored: bool, a: Archive, name: Bytes, payload: Bytes, attrs: Attrs)
    requires Valid(a) && Packable(name, payload, attrs) && Tiled(a0, stored, a)
    requires a.live != [] && a.live[|a.live| - 1].filename == name && Highest(a.live, a.live[|a.live| - 1])
    requires Relists(a, OverwriteLast(a, |a.live| - 1, name, payload, attrs), name,
                     ZipInfo(name, a.live[|a.live| - 1].headerOffset, |payload|))
    ensures Tiled(a0, stored, OverwriteLast(a, |a.live| - 1, name, payload, attrs))
  {
    hide RecordEnd, MemberBytes, NewRecord, Packable, Relists, SortBy, HasSlot;
    var i := |a.live| - 1;
    var b, zi := OverwriteLast(a, i, name, payload, attrs), a.live[i];
    var off := zi.headerOffset;
    var z0 := ZipInfo(name, off, |payload|);
    LiveInFile(a, zi);
    OverwrittenRecord(a.data[..off], off, name, payload, attrs);
    RecordSize();
    ValidNoDuplicates(a);
    RelistsForgetsNone(a, b, name, z0);
    assert Held(a, zi);
    forall o: nat | StartsAt(a, o) ensures o <= off {
      var z :| Held(a, z) && z.headerOffset == o;
    }
    NewSlot(a0, stored, b, z0, b.end);
    forall z | z in b.live && z != z0 ensures HasSlot(a0, stored, b, z) {
      RelistedFrom(a, b, name, z0, z);
      StoredShape(a.data, a.end, z);
      assert Apart(a.data, z, zi);
      LastLeavesBelow(a, i, name, payload, attrs, z);
      SlotKept(a0, stored, a, b, name, z0, z);
    }
  }

  lemma OverwriteInPlaceTiled(a0: Archive, stored: bool, a: Archive, i: nat, name: Bytes, payload: Bytes, attrs: Attrs)
    requires Valid(a) && Packable(name, payload, attrs) && Tiled(a0, stored, a) && stored
    requires i < |a.live| - 1 && a.live[i].filename == name && a.live[i].compressSize == |payload|
    requires Relists(a, OverwriteInPlace(a, i, name, payload, attrs), name, ZipInfo(name, a.live[i].headerOffset, |payload|))
    ensures Tiled(a0, stored, OverwriteInPlace(a, i, name, payload, attrs))
  {
    hide RecordEnd, MemberBytes, NewRecord, Packable, Relists, SortBy, Overwrite, InSlot;
    var b, zi := OverwriteInPlace(a, i, name, payload, attrs), a.live[i];
    var z0 := ZipInfo(name, zi.headerOffset, |payload|);
    OverwrittenInPlace(a, i, name, payload, attrs);
    NewRecordLength(name, payload, attrs);
    RecordSize();
    ValidNoDuplicates(a);
    RelistsForgetsNone(a, b, name, z0);
    assert zi in a.live && Held(a, zi);
    assert HasSlot(a0, stored, a, zi);
    var e: nat :| NextAt(a, zi.headerOffset, e) && InSlot(a0, stored, a.data, zi, e);
    ReusedSlot(a0, stored, a.data, zi, z0, e);
    NewSlot(a0, stored, b, z0, e);
    forall z | z in b.live && z != z0 ensures HasSlot(a0, stored, b, z) {
      RelistedFrom(a, b, name, z0, z);
      InPlaceUntouched(a, i, name, payload, attrs, z);
      SlotKept(a0, stored, a, b, name, z0, z);
    }
  }

  /** The room a reused slot leaves behind its new record is the extra field of the first one there. */
  lemma ReusedSlot(a0: Archive, stored: bool, data: Bytes, zi: ZipInfo, z0: ZipInfo, e: nat)
    requires stored && InSlot(a0, stored, data, zi, e) && PlainEnd(z0) <= RecordEnd(data, zi)
    requires z0.filename == zi.filename && z0.compressSize == zi.compressSize && z0.headerOffset == zi.headerOffset
    ensures PlainEnd(z0) <= e && GapOk(a0, stored, z0, e - PlainEnd(z0))
  {
  }

  lemma TiledStep(a0: Archive, stored: bool, a: Archive, name: Bytes, payload: Bytes, attrs: Attrs)
    requires Valid(a) && Packable(name, payload, attrs) && TruncatesNothing(a.live, name) && Tiled(a0, stored, a)
    ensures Tiled(a0, stored, WriteStep(a, name, payload, stored, attrs))
  {
    hide Packable, AppendRecord, OverwriteLast, OverwriteInPlace, Valid, NoDuplicates, Highest, Tiled, Relists;
    var i := LastIndex(a.live, name);
    LastIndexFinds(a.live, name);
    ValidNoDuplicates(a);
    StepRelists(a, name, payload, stored, attrs);
    if i < 0 {
      AppendTiled(a0, stored, a, a.live, a.gone, name, payload, attrs);
    } else if i + 1 == |a.live| {
      OverwriteLastTiled(a0, stored, a, name, payload, attrs);
    } else if stored && a.live[i].compressSize == |payload| {
      OverwriteInPlaceTiled(a0, stored, a, i, name, payload, attrs);
    } else {
      AppendTiled(a0, stored, a, RemoveAt(a.live, i), a.gone + [a.live[i]], name, payload, attrs);
    }
  }

  lemma AdjacentTiled(a: Archive, stored: bool)
    requires Adjacent(a)
    ensures Tiled(a, stored, a)
  {
    hide NextAt, RecordEnd;
    forall z | z in a.live ensures HasSlot(a, stored, a, z) {
      assert NextAt(a, z.headerOffset, RecordEnd(a.data, z)) && InSlot(a, stored, a.data, z, RecordEnd(a.data, z));
    }
  }

  /** Behind the end of the records there is nothing, or what stood there when the archive was opened: its directory. */
  ghost predicate TailKept(a0: Archive, x: Archive) {
    || |x.data| == x.end
    || (a0.end <= x.end && |x.data| <= |a0.data| && forall k :: x.end <= k < |x.data| ==> x.data[k] == a0.data[k])
  }

  lemma TailInPlace(a0: Archive, a: Archive, i: nat, name: Bytes, payload: Bytes, attrs: Attrs)
    requires Valid(a) && Packable(name, payload, attrs) && TailKept(a0, a)
    requires i < |a.live| && a.live[i].filename == name && a.live[i].compressSize == |payload|
    ensures TailKept(a0, OverwriteInPlace(a, i, name, payload, attrs))
  {
    hide NewRecord, SortBy, RecordEnd, Packable, NoDuplicates, Valid;
    OverwrittenInPlace(a, i, name, payload, attrs);
    LiveStored(a, a.live[i]);
    ghost var b := OverwriteInPlace(a, i, name, payload, attrs);
    forall k | b.end <= k < |b.data| ensures b.data[k] == a.data[k] {}
  }

  lemma TailStep(a0: Archive, stored: bool, a: Archive, name: Bytes, payload: Bytes, attrs: Attrs)
    requires Valid(a) && Packable(name, payload, attrs) && TailKept(a0, a)
    ensures TailKept(a0, WriteStep(a, name, payload, stored, attrs))
  {
    hide NewRecord, SortBy, RecordEnd, Packable, NoDuplicates, Apart, OverwriteInPlace;
    var i := LastIndex(a.live, name);
    if i >= 0 {
      LiveInFile(a, a.live[i]);
      if i + 1 < |a.live| && stored && a.live[i].compressSize == |payload| { TailInPlace(a0, a, i, name, payload, attrs); }
    }
  }

  lemma {:induction false} TiledRun(a0: Archive, a: Archive, stored: bool, ops: seq<Write>)
    requires Valid(a) && Tiled(a0, stored, a) && TailKept(a0, a) && forall op :: op in ops ==> op.Ok()
    requires ops != [] ==> TruncatesNothing(a.live, ops[0].name)
    ensures var b := Run(a, stored, ops);
            Valid(b) && Tiled(a0, stored, b) && TailKept(a0, b) && (ops != [] ==> SortedBy(OffsetOf, b.live))
    decreases |ops|
  {
    hide Valid, WriteStep, ReadBack, Highest, Tiled, TailKept;
    if ops != [] {
      var op := ops[0];
      var b := WriteStep(a, op.name, op.payload, stored, op.attrs);
      assert op in ops && op.Ok();
      WriteStepSound(a, op.name, op.payload, stored, op.attrs);
      TiledStep(a0, stored, a, op.name, op.payload, op.attrs);
      TailStep(a0, stored, a, op.name, op.payload, op.attrs);
      if b.live != [] { SortedLastIsHighest(b.live); }
      TiledRun(a0, b, stored, ops[1..]);
    }
  }

  // ---------- the file close leaves ----------

  /** Where the record behind the one listed at k starts, or the records end. */
  function NextOff(live: seq<ZipInfo>, end: nat, k: nat): nat {
    if k + 1 < |live| then live[k + 1].headerOffset else end
  }

  /** The listed records lie one behind the other, in the order of the list, from the start of the file to the end of the
      records. */
  ghost predicate Packed(a0: Archive, stored: bool, b: Archive) {
    && (if b.live == [] then b.end == 0 else b.live[0].headerOffset == 0)
    && forall k :: 0 <= k < |b.live| ==> GapOk(a0, stored, b.live[k], NextOff(b.live, b.end, k) - RecordEnd(b.data, b.live[k]))
  }

  lemma SlotGap(a0: Archive, stored: bool, data: Bytes, z: ZipInfo, e: nat)
    requires InSlot(a0, stored, data, z, e)
    ensures GapOk(a0, stored, z, e - RecordEnd(data, z))
  {
  }

  lemma FirstAtStart(a0: Archive, stored: bool, x: Archive)
    requires Valid(x) && Tiled(a0, stored, x) && x.gone == [] && SortedBy(OffsetOf, x.live)
    ensures if x.live == [] then x.end == 0 else x.live[0].headerOffset == 0
  {
    hide RecordEnd, HasSlot, NoDuplicates, Apart, Stored;
    if x.live != [] {
      LiveInFile(x, x.live[0]);
      var z :| Held(x, z) && z.headerOffset == 0;
      var i :| 0 <= i < |x.live| && x.live[i] == z;
      assert OffsetOf(x.live[0]) <= OffsetOf(x.live[i]);
    }
  }

  lemma SortedPacked(a0: Archive, stored: bool, x: Archive)
    requires Valid(x) && Tiled(a0, stored, x) && x.gone == [] && SortedBy(OffsetOf, x.live)
    ensures Packed(a0, stored, x)
  {
    hide RecordEnd, GapOk, InSlot, SortedBy, Valid, NextAt;
    FirstAtStart(a0, stored, x);
    forall k | 0 <= k < |x.live| ensures GapOk(a0, stored, x.live[k], NextOff(x.live, x.end, k) - RecordEnd(x.data, x.live[k])) {
      var z := x.live[k];
      assert z in x.live && HasSlot(a0, stored, x, z);
      var e: nat :| NextAt(x, z.headerOffset, e) && InSlot(a0, stored, x.data, z, e);
      NextListed(x, k, e);
      SlotGap(a0, stored, x.data, z, e);
    }
  }

  lemma NextListed(x: Archive, k: nat, e: nat)
    requires Valid(x) && x.gone == [] && SortedBy(OffsetOf, x.live) && k < |x.live| && NextAt(x, x.live[k].headerOffset, e)
    ensures e == NextOff(x.live, x.end, k)
  {
    hide RecordEnd;
    var off := x.live[k].headerOffset;
    if k + 1 < |x.live| {
      var y := x.live[k + 1];
      assert x.live[k] in x.live && y in x.live && Held(x, y) && StartsAt(x, y.headerOffset);
      assert OffsetOf(x.live[k]) <= OffsetOf(y) && Apart(x.data, x.live[k], y);
      LiveInFile(x, y);
    }
    if e < x.end {
      var z :| Held(x, z) && z.headerOffset == e;
      var i :| 0 <= i < |x.live| && x.live[i] == z;
      assert i > k + 1 ==> OffsetOf(x.live[k + 1]) <= OffsetOf(x.live[i]);
    }
  }

  /** A slot that close keeps ends where the next record starts. */
  lemma SlotEnds(x: Archive, i: nat, e: nat)
    requires Valid(x) && i < |AllSlots(x)| && AllSlots(x)[i].keep && NextAt(x, AllSlots(x)[i].zi.headerOffset, e)
    ensures SlotStart(AllSlots(x), x.end, i + 1) == e
  {
    hide AllSlots, RecordEnd, Valid;
    var slots := AllSlots(x);
    AllSlotsCover(x);
    AllSlotsOk(x);
    SlotRoom(x, i);
    if i + 1 < |slots| {
      var t := slots[i + 1];
      assert t in slots && Held(x, t.zi) && StartsAt(x, t.zi.headerOffset);
      HeldBelow(x, t.zi);
    }
    if e < x.end {
      var z :| Held(x, z) && z.headerOffset == e;
      assert Slot(z, z in x.live) in slots;
      var j :| 0 <= j < |slots| && slots[j] == Slot(z, z in x.live);
      assert j > i + 1 ==> SlotOffset(slots[i + 1]) <= SlotOffset(slots[j]);
    }
  }

  /** Each entry of the new directory comes from a kept slot and is followed by the next where that slot's bytes end. */
  lemma {:induction false} MovedPacked(data: Bytes, slots: seq<Slot>, end: nat, n: nat)
    requires n <= |slots|
    ensures var m, kept := Moved(data, slots, end, n), |Kept(data, slots, end, n)|;
            && (if m == [] then kept == 0 else m[0].headerOffset == 0)
            && forall k :: 0 <= k < |m| ==> Comes(data, slots, end, n, k)
  {
    hide SlotBytes;
    if n > 0 {
      MovedPacked(data, slots, end, n - 1);
      var before, m := Moved(data, slots, end, n - 1), Moved(data, slots, end, n);
      forall k | 0 <= k < |m| ensures Comes(data, slots, end, n, k) {
        if k < |before| {
          assert Comes(data, slots, end, n - 1, k);
          var i: nat :| ComesFrom(data, slots, end, n - 1, k, i);
          assert ComesFrom(data, slots, end, n, k, i);
        } else {
          assert ComesFrom(data, slots, end, n, k, n - 1);
        }
      }
    }
  }

  ghost predicate ComesFrom(data: Bytes, slots: seq<Slot>, end: nat, n: nat, k: nat, i: nat)
    requires n <= |slots|
  {
    var m := Moved(data, slots, end, n);
    && k < |m| && i < n && slots[i].keep && m[k] == slots[i].zi.(headerOffset := |Kept(data, slots, end, i)|)
    && NextOff(m, |Kept(data, slots, end, n)|, k) == |Kept(data, slots, end, i + 1)|
  }

  ghost predicate Comes(data: Bytes, slots: seq<Slot>, end: nat, n: nat, k: nat)
    requires n <= |slots|
  {
    exists i :: ComesFrom(data, slots, end, n, k, i)
  }

  lemma CompactedPacked(a0: Archive, stored: bool, x: Archive)
    requires Valid(x) && Tiled(a0, stored, x) && x.gone != []
    ensures Packed(a0, stored, CloseStep(x))
  {
    hide AllSlots, RecordEnd, Kept, Moved, Valid, Tiled, GapOk;
    var slots, b := AllSlots(x), CloseStep(x);
    MovedPacked(x.data, slots, x.end, |slots|);
    forall k | 0 <= k < |b.live| ensures GapOk(a0, stored, b.live[k], NextOff(b.live, b.end, k) - RecordEnd(b.data, b.live[k])) {
      assert Comes(x.data, slots, x.end, |slots|, k);
      var i: nat :| ComesFrom(x.data, slots, x.end, |slots|, k, i);
      CompactedGap(a0, stored, x, k, i);
    }
  }

  lemma CompactedGap(a0: Archive, stored: bool, x: Archive, k: nat, i: nat)
    requires Valid(x) && Tiled(a0, stored, x) && x.gone != [] && ComesFrom(x.data, AllSlots(x), x.end, |AllSlots(x)|, k, i)
    ensures var b := CloseStep(x);
            GapOk(a0, stored, b.live[k], NextOff(b.live, b.end, k) - RecordEnd(b.data, b.live[k]))
  {
    hide AllSlots, RecordEnd, Kept, Moved, Valid, InSlot;
    var slots := AllSlots(x);
    var z := slots[i].zi;
    SlotHoldsRecord(x, i);
    CompactedMember(x, i);
    assert HasSlot(a0, stored, x, z);
    var e: nat :| NextAt(x, z.headerOffset, e) && InSlot(a0, stored, x.data, z, e);
    SlotEnds(x, i, e);
    SlotGap(a0, stored, x.data, z, e);
    CopyOne(x.data, slots, x.end, i);
  }

  /** Over every run of writestr calls and the close behind it, for an archive opened with its records one behind the
      other: the listed records lie so again, from the start of the file, and where anything was retired the file ends with
      the last of them. */
  lemma WritesThenClosePacked(a: Archive, stored: bool, ops: seq<Write>)
    requires Valid(a) && Adjacent(a) && ops != [] && forall op :: op in ops ==> op.Ok()
    requires TruncatesNothing(a.live, ops[0].name)
    ensures var x := Run(a, stored, ops);
            var b := CloseStep(x);
            Packed(a, stored, b) && TailKept(a, b) && (x.gone != [] ==> b.end == |b.data|)
  {
    hide Valid, Tiled, Packed;
    AdjacentTiled(a, stored);
    TiledRun(a, a, stored, ops);
    var x := Run(a, stored, ops);
    if x.gone == [] { SortedPacked(a, stored, x); } else { CompactedPacked(a, stored, x); }
  }
}
