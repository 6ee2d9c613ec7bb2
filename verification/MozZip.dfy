/** MozZipFile.py: a zip writer whose writestr may overwrite members, and whose close
    compacts the file in place. */
module MozZip {
  import opened Basics
  import opened LittleEndian
  import opened ZipStruct
  import opened ZipFormats
  import opened BinaryFile
  import opened Sorting

  datatype ZipInfo = ZipInfo(filename: Bytes, headerOffset: nat, compressSize: nat)

  function OffsetOf(z: ZipInfo): int { z.headerOffset }

  // ---------- one member in the file ----------

  /** The header fields writestr fills in besides sizes and name. */
  datatype Attrs = Attrs(version: nat, flags: nat, compression: nat, time: nat, date: nat, crc: nat, fileSize: nat)

  function HeaderRecord(name: Bytes, payload: Bytes, attrs: Attrs): (r: Record)
    ensures |r.nums| == |LOCAL_WIDTHS|
  {
    Record([LOCAL_SIGNATURE, attrs.version, attrs.flags, attrs.compression, attrs.time, attrs.date, attrs.crc,
            |payload|, attrs.fileSize, |name|, 0], [name, []])
  }

  predicate Packable(name: Bytes, payload: Bytes, attrs: Attrs) {
    Fits(LOCAL_WIDTHS, HeaderRecord(name, payload, attrs).nums)
  }

  function NewRecord(name: Bytes, payload: Bytes, attrs: Attrs): Bytes {
    Pack(LOCAL_HEADER, HeaderRecord(name, payload, attrs)) + payload
  }

  /** The number in n bytes of a record. */
  function FieldOf(rec: Bytes, at: nat, n: nat): nat {
    DecodeLE(Slice(rec, at, n))
  }

  /** A new record, byte by byte as section 4.3.7 of the PKWARE APPNOTE lays it out. */
  lemma NewRecordBytes(name: Bytes, payload: Bytes, attrs: Attrs)
    requires Packable(name, payload, attrs)
    ensures var rec := NewRecord(name, payload, attrs);
            && |rec| == 30 + |name| + |payload| && rec[..4] == [0x50, 0x4b, 3, 4]
            && FieldOf(rec, 4, 2) == attrs.version && FieldOf(rec, 6, 2) == attrs.flags && FieldOf(rec, 8, 2) == attrs.compression
            && FieldOf(rec, 10, 2) == attrs.time && FieldOf(rec, 12, 2) == attrs.date && FieldOf(rec, 14, 4) == attrs.crc
            && FieldOf(rec, 18, 4) == |payload| && FieldOf(rec, 22, 4) == attrs.fileSize
            && FieldOf(rec, 26, 2) == |name| && FieldOf(rec, 28, 2) == 0
            && rec[30..30 + |name|] == name && rec[30 + |name|..] == payload
  {
    hide EncodeLE, DecodeLE, Pack, PackNums, NewRecord, Slice, SizeOf;
    var h := HeaderRecord(name, payload, attrs);
    FixedSizes();
    LocalPlaces();
    SignatureBytes();
    NewRecordParts(name, payload, attrs);
    NewRecordField(name, payload, attrs, 0, 0, 4);
    NewRecordField(name, payload, attrs, 1, 4, 2);
    NewRecordField(name, payload, attrs, 2, 6, 2);
    NewRecordField(name, payload, attrs, 3, 8, 2);
    NewRecordField(name, payload, attrs, 4, 10, 2);
    NewRecordField(name, payload, attrs, 5, 12, 2);
    NewRecordField(name, payload, attrs, 6, 14, 4);
    NewRecordField(name, payload, attrs, 7, 18, 4);
    NewRecordField(name, payload, attrs, 8, 22, 4);
    NewRecordField(name, payload, attrs, 9, 26, 2);
    NewRecordField(name, payload, attrs, 10, 28, 2);
  }

  lemma NewRecordParts(name: Bytes, payload: Bytes, attrs: Attrs)
    ensures SizeOf(LOCAL_WIDTHS) == 30
    ensures NewRecord(name, payload, attrs) == PackNums(LOCAL_WIDTHS, HeaderRecord(name, payload, attrs).nums) + name + payload
  {
    FixedSizes();
    ConcatTwo(name, []);
    assert name + [] == name;
  }

  lemma NewRecordField(name: Bytes, payload: Bytes, attrs: Attrs, k: nat, at: nat, n: nat)
    requires Packable(name, payload, attrs) && k < |LOCAL_WIDTHS| && at == ByteAt(LOCAL_WIDTHS, k) && n == LOCAL_WIDTHS[k]
    ensures at + n <= |NewRecord(name, payload, attrs)|
    ensures NewRecord(name, payload, attrs)[at..at + n] == EncodeLE(n, HeaderRecord(name, payload, attrs).nums[k])
    ensures FieldOf(NewRecord(name, payload, attrs), at, n) == HeaderRecord(name, payload, attrs).nums[k]
  {
    hide EncodeLE, DecodeLE, NewRecord, PackNums, SizeOf;
    var h := HeaderRecord(name, payload, attrs);
    NewRecordParts(name, payload, attrs);
    NumAt(LOCAL_WIDTHS, h.nums, k);
    var rec, nums := NewRecord(name, payload, attrs), PackNums(LOCAL_WIDTHS, h.nums);
    assert rec[at..at + n] == nums[at..at + n];
    DecodeEncode(n, h.nums[k]);
  }

  function DataStart(data: Bytes, z: ZipInfo): Option<nat> {
    match Read(data, LOCAL_HEADER, z.headerOffset)
    case None => None
    case Some(h) => if h.strs[NAME] == z.filename then Some(ReadEnd(LOCAL_HEADER, h, z.headerOffset)) else None
  }

  /** The end of the bytes a reader needs for a listed member. */
  function RecordEnd(data: Bytes, z: ZipInfo): nat {
    match DataStart(data, z)
    case None => |data| + 1
    case Some(p) => p + z.compressSize
  }

  /** A listed member can be read: its header is where the directory says, names it, and its data is all there. */
  predicate Stored(data: Bytes, end: nat, z: ZipInfo) {
    RecordEnd(data, z) <= end <= |data|
  }

  function MemberBytes(data: Bytes, z: ZipInfo): Bytes {
    match DataStart(data, z)
    case None => []
    case Some(p) => Slice(data, p, z.compressSize)
  }

  lemma StoredShape(data: Bytes, end: nat, z: ZipInfo)
    requires Stored(data, end, z)
    ensures z.headerOffset + SizeOf(LOCAL_WIDTHS) + |z.filename| + z.compressSize <= RecordEnd(data, z)
    ensures SizeOf(LOCAL_WIDTHS) > 0
    ensures DataStart(data, z).Some? && DataStart(data, z).value <= RecordEnd(data, z)
  {
    var h := Read(data, LOCAL_HEADER, z.headerOffset).value;
    ReadInside(data, LOCAL_HEADER, z.headerOffset);
    var lens := StrLens(LOCAL_HEADER.lengths, h.nums);
    assert lens == [lens[0], lens[1]];
    SizeOfTwo(lens[0], lens[1]);
  }

  /** A member is read the same from any file holding the same bytes, at the same or another offset. */
  lemma StoredMoves(data: Bytes, end: nat, z: ZipInfo, data': Bytes, end': nat, off: nat)
    requires Stored(data, end, z)
    requires var len := RecordEnd(data, z) - z.headerOffset;
             len >= 0 && off + len <= end' <= |data'| && data'[off..off + len] == data[z.headerOffset..z.headerOffset + len]
    ensures var z' := z.(headerOffset := off);
            && Stored(data', end', z')
            && RecordEnd(data', z') - off == RecordEnd(data, z) - z.headerOffset
            && MemberBytes(data', z') == MemberBytes(data, z)
  {
    hide Read, ReadEnd;
    StoredShape(data, end, z);
    var off0 := z.headerOffset;
    var d, len := DataStart(data, z).value - off0, RecordEnd(data, z) - off0;
    SubSlice(data, off0, data', off, len, 0, d);
    HeaderMoves(data, z, data', off, d);
    SubSlice(data, off0, data', off, len, d, len);
  }

  lemma HeaderMoves(data: Bytes, z: ZipInfo, data': Bytes, off: nat, d: nat)
    requires DataStart(data, z) == Some(z.headerOffset + d) && z.headerOffset + d <= |data|
    requires off + d <= |data'| && data'[off..off + d] == data[z.headerOffset..z.headerOffset + d]
    ensures DataStart(data', z.(headerOffset := off)) == Some(off + d)
  {
    ReadSame(data, data', LOCAL_HEADER, z.headerOffset, off, d);
  }

  /** A freshly written record can be read back and ends where the cursor stops. */
  lemma NewRecordStored(data: Bytes, off: nat, name: Bytes, payload: Bytes, attrs: Attrs)
    requires Packable(name, payload, attrs)
    requires var rec := NewRecord(name, payload, attrs);
             off + |rec| <= |data| && data[off..off + |rec|] == rec
    ensures var z := ZipInfo(name, off, |payload|);
            && Stored(data, off + |NewRecord(name, payload, attrs)|, z)
            && RecordEnd(data, z) == off + |NewRecord(name, payload, attrs)|
            && MemberBytes(data, z) == payload
  {
    var h := HeaderRecord(name, payload, attrs);
    var rec := NewRecord(name, payload, attrs);
    var n := |Pack(LOCAL_HEADER, h)|;
    PartsOf(data, off, Pack(LOCAL_HEADER, h), payload);
    ReadPacked(data, LOCAL_HEADER, h, off);
  }

  lemma PartsOf(data: Bytes, off: nat, a: Bytes, b: Bytes)
    requires off + |a + b| <= |data| && data[off..off + |a + b|] == a + b
    ensures data[off..off + |a|] == a && data[off + |a|..off + |a| + |b|] == b
  {
    SliceOfSlice(data, off, |a + b|, 0, |a|);
    SliceOfSlice(data, off, |a + b|, |a|, |a + b|);
  }

  lemma NewRecordLength(name: Bytes, payload: Bytes, attrs: Attrs)
    ensures |NewRecord(name, payload, attrs)| == SizeOf(LOCAL_WIDTHS) + |name| + |payload|
  {
    ConcatTwo(name, []);
  }

  // ---------- the archive while it is open ----------

  /** File contents, listed members, retired members, and where the next record goes. */
  datatype Archive = Archive(data: Bytes, live: seq<ZipInfo>, gone: seq<ZipInfo>, end: nat)

  ghost predicate NoDuplicates(live: seq<ZipInfo>) {
    forall i, j :: 0 <= i < j < |live| ==> live[i].filename != live[j].filename
  }

  /** Where y starts below z, y also ends below z. */
  ghost predicate Apart(data: Bytes, y: ZipInfo, z: ZipInfo) {
    && y.headerOffset != z.headerOffset
    && (y.headerOffset < z.headerOffset ==> RecordEnd(data, y) <= z.headerOffset)
  }

  /** Nothing listed or retired starts above z. */
  ghost predicate Highest(live: seq<ZipInfo>, z: ZipInfo) {
    forall y :: y in live ==> y.headerOffset <= z.headerOffset
  }

  ghost predicate Valid(a: Archive) {
    && a.end <= |a.data|
    && NoDuplicates(a.live)
    && (forall z :: z in a.live ==> Stored(a.data, a.end, z))
    && (forall y, z :: y in a.live && z in a.live && y != z ==> Apart(a.data, y, z))
    && (forall y, z :: y in a.live && z in a.gone ==> Apart(a.data, y, z))
    && (a.gone != [] ==> SortedBy(OffsetOf, a.live) && a.live != [])
    && (forall z :: z in a.gone ==> a.live != [] && z.headerOffset < a.live[|a.live| - 1].headerOffset)
  }

  /** A directory as a map; a later entry of the same name wins. */
  function ToMap(content: ZipInfo -> Bytes, dir: seq<ZipInfo>): map<Bytes, Bytes> {
    if dir == [] then map[]
    else ToMap(content, dir[..|dir| - 1])[dir[|dir| - 1].filename := content(dir[|dir| - 1])]
  }

  /** Reading the archive back through a directory. */
  function ReadBack(data: Bytes, dir: seq<ZipInfo>): map<Bytes, Bytes> {
    ToMap(z => MemberBytes(data, z), dir)
  }

  /** The directory lists exactly the keys of m, with the contents m gives them. */
  ghost predicate Represents(content: ZipInfo -> Bytes, dir: seq<ZipInfo>, m: map<Bytes, Bytes>) {
    && (forall z :: z in dir ==> z.filename in m && m[z.filename] == content(z))
    && (forall n :: n in m ==> Lists(dir, n))
  }

  ghost predicate Lists(dir: seq<ZipInfo>, name: Bytes) {
    exists z :: z in dir && z.filename == name
  }

  lemma {:induction false} ToMapRepresents(content: ZipInfo -> Bytes, dir: seq<ZipInfo>)
    requires NoDuplicates(dir)
    ensures Represents(content, dir, ToMap(content, dir))
  {
    if dir != [] {
      var n := |dir| - 1;
      var init, last := dir[..n], dir[n];
      ToMapRepresents(content, init);
      assert dir == init + [last];
      RepresentsSnoc(content, init, ToMap(content, init), last);
    }
  }

  lemma RepresentsSnoc(content: ZipInfo -> Bytes, init: seq<ZipInfo>, m: map<Bytes, Bytes>, last: ZipInfo)
    requires Represents(content, init, m) && NoDuplicates(init + [last])
    ensures Represents(content, init + [last], m[last.filename := content(last)])
  {
    var dir := init + [last];
    forall z | z in init ensures z.filename != last.filename {
      var i :| 0 <= i < |init| && init[i] == z;
      assert dir[i] == z && dir[|init|] == last;
    }
    var m' := m[last.filename := content(last)];
    forall k | k in m' ensures Lists(dir, k) {
      if k == last.filename {
        assert last in dir;
      } else {
        assert Lists(init, k);
        var z :| z in init && z.filename == k;
        assert z in dir;
      }
    }
  }

  lemma RepresentsOne(content: ZipInfo -> Bytes, dir: seq<ZipInfo>, m: map<Bytes, Bytes>)
    requires NoDuplicates(dir) && Represents(content, dir, m)
    ensures ToMap(content, dir) == m
  {
    var r := ToMap(content, dir);
    ToMapRepresents(content, dir);
    forall n ensures n in r <==> n in m {
      if n in r { assert Lists(dir, n); }
      if n in m { assert Lists(dir, n); }
    }
    forall n | n in r ensures r[n] == m[n] {
      assert Lists(dir, n);
      var z :| z in dir && z.filename == n;
    }
  }

  // ---------- writestr ----------

  function LastIndex(live: seq<ZipInfo>, name: Bytes): (i: int)
    ensures -1 <= i < |live|
    ensures i >= 0 ==> live[i].filename == name
    ensures forall k :: i < k < |live| ==> live[k].filename != name
  {
    if live == [] then -1
    else if live[|live| - 1].filename == name then |live| - 1
    else LastIndex(live[..|live| - 1], name)
  }

  function RemoveAt<T>(s: seq<T>, i: nat): (r: seq<T>)
    requires i < |s|
    ensures |r| == |s| - 1
  {
    s[..i] + s[i + 1..]
  }

  function AppendRecord(a: Archive, live: seq<ZipInfo>, gone: seq<ZipInfo>, name: Bytes, payload: Bytes, attrs: Attrs): Archive {
    var rec := NewRecord(name, payload, attrs);
    Archive(Overwrite(a.data, a.end, rec), SortBy(OffsetOf, live + [ZipInfo(name, a.end, |payload|)]), gone, a.end + |rec|)
  }

  /** The last listed entry: cut the file at its header and write there. */
  function OverwriteLast(a: Archive, i: nat, name: Bytes, payload: Bytes, attrs: Attrs): Archive
    requires i < |a.live|
  {
    var off := a.live[i].headerOffset;
    var rec := NewRecord(name, payload, attrs);
    Archive(Overwrite(a.data[..Min(off, |a.data|)], off, rec),
            SortBy(OffsetOf, RemoveAt(a.live, i) + [ZipInfo(name, off, |payload|)]), a.gone, off + |rec|)
  }

  /** An uncompressed entry of the same size: write over it and go back to the end. */
  function OverwriteInPlace(a: Archive, i: nat, name: Bytes, payload: Bytes, attrs: Attrs): Archive
    requires i < |a.live|
  {
    var off := a.live[i].headerOffset;
    Archive(Overwrite(a.data, off, NewRecord(name, payload, attrs)),
            SortBy(OffsetOf, RemoveAt(a.live, i) + [ZipInfo(name, off, |payload|)]), a.gone, a.end)
  }

  /** What writestr does to the archive; payload is the content as stored, after compression. */
  function WriteStep(a: Archive, name: Bytes, payload: Bytes, stored: bool, attrs: Attrs): Archive {
    var i := LastIndex(a.live, name);
    if i < 0 then AppendRecord(a, a.live, a.gone, name, payload, attrs)
    else if i + 1 == |a.live| then OverwriteLast(a, i, name, payload, attrs)
    else if stored && a.live[i].compressSize == |payload| then OverwriteInPlace(a, i, name, payload, attrs)
    else AppendRecord(a, RemoveAt(a.live, i), a.gone + [a.live[i]], name, payload, attrs)
  }

  /** The guard the code does not make: the last listed entry is overwritten by truncating
      the file, which is right only when it is also the highest in the file. */
  ghost predicate TruncatesNothing(live: seq<ZipInfo>, name: Bytes) {
    live != [] && live[|live| - 1].filename == name ==> Highest(live, live[|live| - 1])
  }

  lemma SortedLastIsHighest(live: seq<ZipInfo>)
    requires SortedBy(OffsetOf, live) && live != []
    ensures Highest(live, live[|live| - 1])
  {
    forall y | y in live ensures y.headerOffset <= live[|live| - 1].headerOffset {
      var i :| 0 <= i < |live| && live[i] == y;
      assert OffsetOf(live[i]) <= OffsetOf(live[|live| - 1]);
    }
  }

  lemma NamesIdentify(live: seq<ZipInfo>, y: ZipInfo, z: ZipInfo)
    requires NoDuplicates(live) && y in live && z in live && y.filename == z.filename
    ensures y == z
  {
  }

  /** Members other than name, in a list without duplicates. */
  lemma RestMembers(live: seq<ZipInfo>, i: nat)
    requires NoDuplicates(live) && i < |live|
    ensures var rest := RemoveAt(live, i);
            && NoDuplicates(rest)
            && forall z :: z in rest <==> z in live && z.filename != live[i].filename
  {
    var rest := RemoveAt(live, i);
    forall z ensures z in rest <==> z in live && z.filename != live[i].filename {
      if z in live && z.filename != live[i].filename {
        var k :| 0 <= k < |live| && live[k] == z;
        assert rest[if k < i then k else k - 1] == z;
      }
    }
  }

  /** Replacing the entry of a name in a directory keeps names distinct, through the sort. */
  lemma RelistNoDuplicates(rest: seq<ZipInfo>, z: ZipInfo)
    requires NoDuplicates(rest) && forall y :: y in rest ==> y.filename != z.filename
    ensures var live := SortBy(OffsetOf, rest + [z]);
            && NoDuplicates(live) && SortedBy(OffsetOf, live) && live != []
            && forall y :: y in live <==> y in rest || y == z
  {
    var s := rest + [z];
    SortBySorts(OffsetOf, s);
    var live := SortBy(OffsetOf, s);
    forall i, j | 0 <= i < j < |live| ensures live[i].filename != live[j].filename {
      if live[i].filename == live[j].filename {
        assert live[i] in s && live[j] in s;
        assert live[i] == live[j];
        TwiceInSeq(live, i, j);
        OnceInSeq(s, live[i]);
      }
    }
    assert |live| == |s|;
  }

  lemma TwiceInSeq<T>(s: seq<T>, i: nat, j: nat)
    requires i < j < |s| && s[i] == s[j]
    ensures multiset(s)[s[i]] >= 2
  {
    assert s == s[..j] + s[j..];
    assert s[i] in s[..j] && s[j] in s[j..];
  }

  lemma {:induction false} OnceInSeq<T>(s: seq<T>, x: T)
    requires forall i, j :: 0 <= i < j < |s| ==> s[i] != s[j]
    ensures multiset(s)[x] <= 1
  {
    if s != [] {
      var n := |s| - 1;
      assert s == s[..n] + [s[n]];
      OnceInSeq(s[..n], x);
      if s[n] == x { assert x !in s[..n]; }
    }
  }

  ghost predicate SameMember(data: Bytes, data': Bytes, z: ZipInfo) {
    RecordEnd(data', z) == RecordEnd(data, z) && MemberBytes(data', z) == MemberBytes(data, z)
  }

  /** A write that stays clear of a member's bytes does not change the member. */
  lemma MemberUntouched(data: Bytes, end: nat, data': Bytes, z: ZipInfo)
    requires Stored(data, end, z) && RecordEnd(data, z) <= |data'|
    requires forall i :: z.headerOffset <= i < RecordEnd(data, z) ==> data'[i] == data[i]
    ensures SameMember(data, data', z)
  {
    StoredShape(data, end, z);
    var off, e := z.headerOffset, RecordEnd(data, z);
    assert data'[off..off + (e - off)] == data[off..off + (e - off)];
    StoredMoves(data, end, z, data', |data'|, off);
    assert z.(headerOffset := off) == z;
  }

  /** The directory after one entry z0 has been replaced or added and the list sorted again. */
  lemma Relisted(a: Archive, rest: seq<ZipInfo>, b: Archive, z0: ZipInfo, top: ZipInfo)
    requires Valid(a) && NoDuplicates(rest)
    requires forall z :: z in rest <==> z in a.live && z.filename != z0.filename
    requires b.live == SortBy(OffsetOf, rest + [z0])
    requires Stored(b.data, b.end, z0)
    requires forall z :: z in rest ==> SameMember(a.data, b.data, z) && RecordEnd(a.data, z) <= b.end
    requires forall z :: z in rest ==> Apart(a.data, z, z0) && Apart(b.data, z0, z)
    requires forall y, z :: y in rest && z in b.gone ==> Apart(a.data, y, z)
    requires top in rest || top == z0
    requires forall z :: z in b.gone ==> Apart(b.data, z0, z) && z.headerOffset < top.headerOffset
    ensures Valid(b) && SortedBy(OffsetOf, b.live)
    ensures ReadBack(b.data, b.live) == ReadBack(a.data, a.live)[z0.filename := MemberBytes(b.data, z0)]
  {
    RelistedValid(a, rest, b, z0, top);
    RelistNoDuplicates(rest, z0);
    var before := (z: ZipInfo) => MemberBytes(a.data, z);
    var after := (z: ZipInfo) => MemberBytes(b.data, z);
    forall z | z in rest ensures after(z) == before(z) { assert SameMember(a.data, b.data, z); }
    RelistedMap(before, after, a.live, rest, b.live, z0);
  }

  lemma RelistedValid(a: Archive, rest: seq<ZipInfo>, b: Archive, z0: ZipInfo, top: ZipInfo)
    requires Valid(a) && NoDuplicates(rest)
    requires forall z :: z in rest <==> z in a.live && z.filename != z0.filename
    requires b.live == SortBy(OffsetOf, rest + [z0])
    requires Stored(b.data, b.end, z0)
    requires forall z :: z in rest ==> SameMember(a.data, b.data, z) && RecordEnd(a.data, z) <= b.end
    requires forall z :: z in rest ==> Apart(a.data, z, z0) && Apart(b.data, z0, z)
    requires forall y, z :: y in rest && z in b.gone ==> Apart(a.data, y, z)
    requires top in rest || top == z0
    requires forall z :: z in b.gone ==> Apart(b.data, z0, z) && z.headerOffset < top.headerOffset
    ensures Valid(b) && SortedBy(OffsetOf, b.live)
  {
    hide RecordEnd, MemberBytes, SortBy, SortedBy;
    RelistNoDuplicates(rest, z0);
    SortedLastIsHighest(b.live);
    assert top in b.live;
    forall z | z in b.live ensures Stored(b.data, b.end, z) {}
    forall y, z | y in b.live && z in b.live && y != z ensures Apart(b.data, y, z) {}
    forall y, z | y in b.live && z in b.gone ensures Apart(b.data, y, z) {}
  }

  lemma RelistedMap(before: ZipInfo -> Bytes, after: ZipInfo -> Bytes, live: seq<ZipInfo>, rest: seq<ZipInfo>,
                    live': seq<ZipInfo>, z0: ZipInfo)
    requires NoDuplicates(live) && NoDuplicates(live')
    requires forall z :: z in rest <==> z in live && z.filename != z0.filename
    requires forall z :: z in live' <==> z in rest || z == z0
    requires forall z :: z in rest ==> after(z) == before(z)
    ensures ToMap(after, live') == ToMap(before, live)[z0.filename := after(z0)]
  {
    var m := ToMap(before, live);
    var m' := m[z0.filename := after(z0)];
    ToMapRepresents(before, live);
    forall n | n in m' ensures Lists(live', n) {
      if n == z0.filename {
        assert z0 in live';
      } else {
        assert Lists(live, n);
        var z :| z in live && z.filename == n;
        assert z in live';
      }
    }
    RepresentsOne(after, live', m');
  }

  // The three ways writestr stores a member: at the end, over the last slot, over a slot of equal size.

  /** b is a valid archive holding what a held, with name set to payload. */
  ghost predicate Updated(a: Archive, b: Archive, name: Bytes, payload: Bytes) {
    && Valid(b) && SortedBy(OffsetOf, b.live)
    && ReadBack(b.data, b.live) == ReadBack(a.data, a.live)[name := payload]
  }

  lemma AppendSound(a: Archive, rest: seq<ZipInfo>, gone: seq<ZipInfo>, name: Bytes, payload: Bytes, attrs: Attrs)
    requires Valid(a) && Packable(name, payload, attrs)
    requires NoDuplicates(rest) && forall z :: z in rest <==> z in a.live && z.filename != name
    requires forall z :: z in gone ==> z in a.gone || (z in a.live && z !in rest)
    ensures Updated(a, AppendRecord(a, rest, gone, name, payload, attrs), name, payload)
  {
    hide RecordEnd, MemberBytes, NewRecord, Packable;
    var b := AppendRecord(a, rest, gone, name, payload, attrs);
    var z0 := ZipInfo(name, a.end, |payload|);
    OverwrittenRecord(a.data, a.end, name, payload, attrs);
    forall z | z in a.live ensures z.headerOffset < RecordEnd(a.data, z) <= a.end {
      StoredShape(a.data, a.end, z);
    }
    forall z | z in rest ensures SameMember(a.data, b.data, z) {
      MemberUntouched(a.data, a.end, b.data, z);
    }
    forall z | z in gone ensures z.headerOffset < a.end {
      if z in a.gone { assert a.live[|a.live| - 1] in a.live; }
    }
    Relisted(a, rest, b, z0, z0);
  }

  /** The bytes after either overwrite: the new record at off, everything kept before it. */
  lemma OverwrittenRecord(data: Bytes, off: nat, name: Bytes, payload: Bytes, attrs: Attrs)
    requires Packable(name, payload, attrs) && off <= |data|
    ensures var z0 := ZipInfo(name, off, |payload|);
            var rec := NewRecord(name, payload, attrs);
            var data' := Overwrite(data, off, rec);
            && Stored(data', off + |rec|, z0) && RecordEnd(data', z0) == off + |rec|
            && MemberBytes(data', z0) == payload
            && off < off + |rec| == off + SizeOf(LOCAL_WIDTHS) + |name| + |payload| <= |data'|
  {
    var z0 := ZipInfo(name, off, |payload|);
    var data' := Overwrite(data, off, NewRecord(name, payload, attrs));
    NewRecordStored(data', off, name, payload, attrs);
    StoredShape(data', |data'|, z0);
    NewRecordLength(name, payload, attrs);
  }

  lemma OverwriteLastSound(a: Archive, name: Bytes, payload: Bytes, attrs: Attrs)
    requires Valid(a) && Packable(name, payload, attrs)
    requires a.live != [] && a.live[|a.live| - 1].filename == name && Highest(a.live, a.live[|a.live| - 1])
    ensures Updated(a, OverwriteLast(a, |a.live| - 1, name, payload, attrs), name, payload)
  {
    var i := |a.live| - 1;
    var b := OverwriteLast(a, i, name, payload, attrs);
    var zi, rest := a.live[i], RemoveAt(a.live, i);
    var off := zi.headerOffset;
    RestMembers(a.live, i);
    StoredShape(a.data, a.end, zi);
    OverwrittenRecord(a.data[..off], off, name, payload, attrs);
    forall z | z in rest ensures z.headerOffset < RecordEnd(a.data, z) <= off && SameMember(a.data, b.data, z) {
      StoredShape(a.data, a.end, z);
      assert Apart(a.data, z, zi);
      LastLeavesBelow(a, i, name, payload, attrs, z);
    }
    var z0 := ZipInfo(name, off, |payload|);
    Relisted(a, rest, b, z0, z0);
  }

  lemma LastLeavesBelow(a: Archive, i: nat, name: Bytes, payload: Bytes, attrs: Attrs, z: ZipInfo)
    requires i < |a.live| && Stored(a.data, a.end, z) && RecordEnd(a.data, z) <= a.live[i].headerOffset <= |a.data|
    ensures SameMember(a.data, OverwriteLast(a, i, name, payload, attrs).data, z)
  {
    hide RecordEnd, NewRecord, Stored;
    var b, off := OverwriteLast(a, i, name, payload, attrs), a.live[i].headerOffset;
    forall k | z.headerOffset <= k < RecordEnd(a.data, z) ensures b.data[k] == a.data[k] {
      assert a.data[..off][k] == a.data[k];
    }
    MemberUntouched(a.data, a.end, b.data, z);
  }

  lemma OverwriteInPlaceSound(a: Archive, i: nat, name: Bytes, payload: Bytes, attrs: Attrs)
    requires Valid(a) && Packable(name, payload, attrs)
    requires i < |a.live| - 1 && a.live[i].filename == name && a.live[i].compressSize == |payload|
    ensures Updated(a, OverwriteInPlace(a, i, name, payload, attrs), name, payload)
  {
    hide RecordEnd, MemberBytes, NewRecord, Packable, Overwrite;
    var b := OverwriteInPlace(a, i, name, payload, attrs);
    var zi, rest := a.live[i], RemoveAt(a.live, i);
    var z0 := ZipInfo(name, zi.headerOffset, |payload|);
    RestMembers(a.live, i);
    OverwrittenInPlace(a, i, name, payload, attrs);
    forall z | z in rest ensures SameMember(a.data, b.data, z) && Apart(a.data, z, zi) && Apart(b.data, z0, z) {
      InPlaceUntouched(a, i, name, payload, attrs, z);
    }
    var last := a.live[|a.live| - 1];
    assert rest[|rest| - 1] == last;
    forall z | z in a.gone ensures Apart(b.data, z0, z) && z.headerOffset < last.headerOffset {
      assert Apart(a.data, zi, z);
    }
    forall y, z | y in rest && z in a.gone ensures Apart(a.data, y, z) {}
    Relisted(a, rest, b, z0, last);
  }

  /** The new record takes no more room than the old one. */
  lemma OverwrittenInPlace(a: Archive, i: nat, name: Bytes, payload: Bytes, attrs: Attrs)
    requires Valid(a) && Packable(name, payload, attrs)
    requires i < |a.live| && a.live[i].filename == name && a.live[i].compressSize == |payload|
    ensures var b, off := OverwriteInPlace(a, i, name, payload, attrs), a.live[i].headerOffset;
            var z0 := ZipInfo(name, off, |payload|);
            && Stored(b.data, b.end, z0) && MemberBytes(b.data, z0) == payload
            && off < RecordEnd(b.data, z0) == off + |NewRecord(name, payload, attrs)| <= RecordEnd(a.data, a.live[i])
            && |b.data| == |a.data|
  {
    hide RecordEnd, MemberBytes, NewRecord, Packable;
    StoredShape(a.data, a.end, a.live[i]);
    OverwrittenRecord(a.data, a.live[i].headerOffset, name, payload, attrs);
  }

  lemma InPlaceUntouched(a: Archive, i: nat, name: Bytes, payload: Bytes, attrs: Attrs, z: ZipInfo)
    requires Valid(a) && Packable(name, payload, attrs)
    requires i < |a.live| && a.live[i].filename == name && a.live[i].compressSize == |payload|
    requires z in a.live && z.filename != name
    ensures var b := OverwriteInPlace(a, i, name, payload, attrs);
            && SameMember(a.data, b.data, z) && Apart(a.data, z, a.live[i])
            && Apart(b.data, ZipInfo(name, a.live[i].headerOffset, |payload|), z)
  {
    hide RecordEnd, MemberBytes, NewRecord, Packable;
    OverwrittenInPlace(a, i, name, payload, attrs);
    StoredShape(a.data, a.end, z);
    assert Apart(a.data, z, a.live[i]) && Apart(a.data, a.live[i], z);
    MemberUntouched(a.data, a.end, OverwriteInPlace(a, i, name, payload, attrs).data, z);
  }

  /** Unless it truncates below another member, writestr keeps the archive valid and updates the
      name-to-contents map at the written name only. */
  lemma WriteStepSound(a: Archive, name: Bytes, payload: Bytes, stored: bool, attrs: Attrs)
    requires Valid(a) && Packable(name, payload, attrs) && TruncatesNothing(a.live, name)
    ensures Updated(a, WriteStep(a, name, payload, stored, attrs), name, payload)
  {
    hide Updated, Packable, AppendRecord, OverwriteLast, OverwriteInPlace, Valid, NoDuplicates, Highest, LastIndex;
    var i := LastIndex(a.live, name);
    LastIndexFinds(a.live, name);
    ValidNoDuplicates(a);
    if i < 0 {
      AppendSound(a, a.live, a.gone, name, payload, attrs);
    } else if i + 1 == |a.live| {
      OverwriteLastSound(a, name, payload, attrs);
    } else if stored && a.live[i].compressSize == |payload| {
      OverwriteInPlaceSound(a, i, name, payload, attrs);
    } else {
      RetireSound(a, i, name, payload, attrs);
    }
  }

  lemma LastIndexFinds(live: seq<ZipInfo>, name: Bytes)
    ensures var i := LastIndex(live, name);
            && -1 <= i < |live| && (i >= 0 ==> live[i].filename == name)
            && (i < 0 ==> forall z :: z in live ==> z.filename != name)
  {
  }

  lemma RetireSound(a: Archive, i: nat, name: Bytes, payload: Bytes, attrs: Attrs)
    requires Valid(a) && Packable(name, payload, attrs) && i < |a.live| && a.live[i].filename == name
    ensures Updated(a, AppendRecord(a, RemoveAt(a.live, i), a.gone + [a.live[i]], name, payload, attrs), name, payload)
  {
    hide Updated, Packable, AppendRecord, Valid, RemoveAt;
    ValidNoDuplicates(a);
    RestMembers(a.live, i);
    AppendSound(a, RemoveAt(a.live, i), a.gone + [a.live[i]], name, payload, attrs);
  }

  lemma ValidNoDuplicates(a: Archive)
    requires Valid(a)
    ensures NoDuplicates(a.live)
  {
  }

  /** The converse: when the last listed member is not the highest in the file, overwriting it
      cuts another member off, and the archive is no longer valid. */
  lemma WriteStepValidIff(a: Archive, name: Bytes, payload: Bytes, stored: bool, attrs: Attrs)
    requires Valid(a) && Packable(name, payload, attrs)
    ensures Valid(WriteStep(a, name, payload, stored, attrs)) <==> TruncatesNothing(a.live, name)
  {
    if TruncatesNothing(a.live, name) {
      WriteStepSound(a, name, payload, stored, attrs);
    } else {
      TruncationInvalid(a, name, payload, attrs);
    }
  }

  lemma TruncationInvalid(a: Archive, name: Bytes, payload: Bytes, attrs: Attrs)
    requires Valid(a) && Packable(name, payload, attrs) && !TruncatesNothing(a.live, name)
    ensures !Valid(OverwriteLast(a, |a.live| - 1, name, payload, attrs))
  {
    hide RecordEnd, MemberBytes, NewRecord, Packable;
    var i := |a.live| - 1;
    var b := OverwriteLast(a, i, name, payload, attrs);
    var zi, rest := a.live[i], RemoveAt(a.live, i);
    var off := zi.headerOffset;
    var z0 := ZipInfo(name, off, |payload|);
    var y :| y in a.live && y.headerOffset > off;
    RestMembers(a.live, i);
    if y.filename == name { NamesIdentify(a.live, y, zi); }
    RelistNoDuplicates(rest, z0);
    StoredShape(a.data, a.end, zi);
    OverwrittenRecord(a.data[..off], off, name, payload, attrs);
    if Stored(b.data, b.end, y) {
      StoredShape(b.data, b.end, y);
      assert !Apart(b.data, z0, y);
    }
  }

  /** The condition is a real one: an archive whose directory lists its two members in the other
      order than the file does is valid, and rewriting the first one leaves the second unreadable. */
  lemma UnsortedDirectoryLosesMember(first: Bytes, second: Bytes, payload: Bytes, attrs: Attrs)
    requires first != second && Packable(first, payload, attrs) && Packable(second, payload, attrs)
    ensures var r1, r2 := NewRecord(first, payload, attrs), NewRecord(second, payload, attrs);
            var z1, z2 := ZipInfo(first, 0, |payload|), ZipInfo(second, |r1|, |payload|);
            var a := Archive(r1 + r2, [z2, z1], [], |r1 + r2|);
            && Valid(a)
            && !Stored(WriteStep(a, first, payload, true, attrs).data, |r1|, z2)
  {
    hide RecordEnd, MemberBytes, NewRecord, Packable, DataStart;
    var r1, r2 := NewRecord(first, payload, attrs), NewRecord(second, payload, attrs);
    var z1, z2 := ZipInfo(first, 0, |payload|), ZipInfo(second, |r1|, |payload|);
    var a := Archive(r1 + r2, [z2, z1], [], |r1 + r2|);
    assert a.data[0..0 + |r1|] == r1 && a.data[|r1|..|r1| + |r2|] == r2;
    NewRecordStored(a.data, 0, first, payload, attrs);
    NewRecordStored(a.data, |r1|, second, payload, attrs);
    StoredShape(a.data, |r1|, z1);
    assert Valid(a);
    OverwrittenRecord(a.data[..0], 0, first, payload, attrs);
    var b := WriteStep(a, first, payload, true, attrs);
    if Stored(b.data, |r1|, z2) {
      StoredShape(b.data, |r1|, z2);
    }
  }

  // ---------- any number of calls ----------

  datatype Write = Write(name: Bytes, payload: Bytes, attrs: Attrs) {
    predicate Ok() { Packable(name, payload, attrs) }
  }

  function Run(a: Archive, stored: bool, ops: seq<Write>): Archive
    decreases |ops|
  {
    if ops == [] then a
    else Run(WriteStep(a, ops[0].name, ops[0].payload, stored, ops[0].attrs), stored, ops[1..])
  }

  function Updates(m: map<Bytes, Bytes>, ops: seq<Write>): map<Bytes, Bytes>
    decreases |ops|
  {
    if ops == [] then m else Updates(m[ops[0].name := ops[0].payload], ops[1..])
  }

  /** After any run of writestr calls the archive reads back as a plain map updated in order.
      Only the first call needs its guard: every call leaves the directory sorted. */
  lemma {:induction false} RunSound(a: Archive, stored: bool, ops: seq<Write>)
    requires Valid(a) && forall op :: op in ops ==> op.Ok()
    requires ops != [] ==> TruncatesNothing(a.live, ops[0].name)
    ensures var b := Run(a, stored, ops);
            && Valid(b)
            && ReadBack(b.data, b.live) == Updates(ReadBack(a.data, a.live), ops)
    decreases |ops|
  {
    hide Valid, WriteStep, ReadBack, Highest;
    if ops != [] {
      var op := ops[0];
      var b := WriteStep(a, op.name, op.payload, stored, op.attrs);
      assert op in ops && op.Ok();
      WriteStepSound(a, op.name, op.payload, stored, op.attrs);
      if b.live != [] { SortedLastIsHighest(b.live); }
      RunSound(b, stored, ops[1..]);
    }
  }

  // ---------- close ----------

  /** Live and retired entries together, as close sorts them. */
  datatype Slot = Slot(zi: ZipInfo, keep: bool)

  function SlotOffset(s: Slot): int { s.zi.headerOffset }

  function Tagged(infos: seq<ZipInfo>, keep: bool): (r: seq<Slot>)
    ensures |r| == |infos|
    ensures forall i :: 0 <= i < |r| ==> r[i] == Slot(infos[i], keep)
  {
    seq(|infos|, i requires 0 <= i < |infos| => Slot(infos[i], keep))
  }

  function AllSlots(a: Archive): seq<Slot> {
    SortBy(SlotOffset, Tagged(a.live, true) + Tagged(a.gone, false))
  }

  /** Slots in file order inside the records' part of the file. */
  ghost predicate SlotsOk(slots: seq<Slot>, end: nat) {
    SortedBy(SlotOffset, slots) && forall i :: 0 <= i < |slots| ==> slots[i].zi.headerOffset <= end
  }

  /** A slot reaches to the next slot, live or retired, or to the end of the records. */
  function SlotStart(slots: seq<Slot>, end: nat, i: nat): nat
    requires i <= |slots|
  {
    if i < |slots| then slots[i].zi.headerOffset else end
  }

  function SlotBytes(data: Bytes, slots: seq<Slot>, end: nat, i: nat): Bytes
    requires i < |slots|
  {
    Slice(data, SlotStart(slots, end, i), Max(SlotStart(slots, end, i + 1) - SlotStart(slots, end, i), 0))
  }

  function Max(a: int, b: int): int { if a < b then b else a }

  /** The kept ones of the first i slots, one after the other. */
  function Kept(data: Bytes, slots: seq<Slot>, end: nat, i: nat): Bytes
    requires i <= |slots|
  {
    if i == 0 then []
    else Kept(data, slots, end, i - 1) + if slots[i - 1].keep then SlotBytes(data, slots, end, i - 1) else []
  }

  /** Their directory entries, with the offsets the kept slots get. */
  function Moved(data: Bytes, slots: seq<Slot>, end: nat, i: nat): seq<ZipInfo>
    requires i <= |slots|
  {
    if i == 0 then []
    else
      var z := slots[i - 1].zi;
      Moved(data, slots, end, i - 1) +
        if slots[i - 1].keep then [z.(headerOffset := |Kept(data, slots, end, i - 1)|)] else []
  }

  function CloseStep(a: Archive): Archive {
    if a.gone == [] then a
    else
      var slots := AllSlots(a);
      var kept := Kept(a.data, slots, a.end, |slots|);
      Archive(kept, Moved(a.data, slots, a.end, |slots|), [], |kept|)
  }

  /** The bytes kept from the first i slots fit below slot i: copying down never reaches unread data. */
  lemma {:induction false} KeptFits(data: Bytes, slots: seq<Slot>, end: nat, i: nat)
    requires i <= |slots| && SlotsOk(slots, end) && end <= |data|
    ensures |Kept(data, slots, end, i)| <= SlotStart(slots, end, i)
  {
    if i > 0 {
      KeptFits(data, slots, end, i - 1);
      if i < |slots| { assert SlotOffset(slots[i - 1]) <= SlotOffset(slots[i]); }
    }
  }

  lemma {:induction false} KeptGrows(data: Bytes, slots: seq<Slot>, end: nat, i: nat, n: nat)
    requires i <= n <= |slots|
    ensures Kept(data, slots, end, i) <= Kept(data, slots, end, n)
    decreases n
  {
    if i < n { KeptGrows(data, slots, end, i, n - 1); }
  }

  /** Slot i's bytes are found unchanged at its new offset. */
  lemma KeptAt(data: Bytes, slots: seq<Slot>, end: nat, i: nat, n: nat)
    requires i < n <= |slots| && slots[i].keep
    ensures var to := |Kept(data, slots, end, i)|;
            var len := |SlotBytes(data, slots, end, i)|;
            && to + len <= |Kept(data, slots, end, n)|
            && Kept(data, slots, end, n)[to..to + len] == SlotBytes(data, slots, end, i)
  {
    KeptGrows(data, slots, end, i + 1, n);
  }

  lemma {:induction false} MovedMembers(data: Bytes, slots: seq<Slot>, end: nat, n: nat, z: ZipInfo)
    requires n <= |slots|
    ensures z in Moved(data, slots, end, n) <==>
            exists i :: 0 <= i < n && slots[i].keep && z == slots[i].zi.(headerOffset := |Kept(data, slots, end, i)|)
  {
    if n > 0 { MovedMembers(data, slots, end, n - 1, z); }
  }

  ghost predicate SlotsCover(a: Archive, slots: seq<Slot>) {
    forall s :: s in slots <==> if s.keep then s.zi in a.live else s.zi in a.gone
  }

  ghost predicate KeptNamesDiffer(slots: seq<Slot>) {
    forall i, j :: 0 <= i < j < |slots| && slots[i].keep && slots[j].keep ==>
      slots[i].zi.filename != slots[j].zi.filename
  }

  lemma AllSlotsCover(a: Archive)
    ensures SlotsCover(a, AllSlots(a))
  {
    var tagged := Tagged(a.live, true) + Tagged(a.gone, false);
    SortBySorts(SlotOffset, tagged);
    forall s: Slot ensures s in AllSlots(a) <==> if s.keep then s.zi in a.live else s.zi in a.gone {
      if s.keep && s.zi in a.live {
        var i :| 0 <= i < |a.live| && a.live[i] == s.zi;
        assert tagged[i] == s;
      }
      if !s.keep && s.zi in a.gone {
        var i :| 0 <= i < |a.gone| && a.gone[i] == s.zi;
        assert tagged[|a.live| + i] == s;
      }
    }
  }

  lemma AllSlotsOk(a: Archive)
    requires Valid(a)
    ensures SlotsOk(AllSlots(a), a.end)
  {
    AllSlotsCover(a);
    SortBySorts(SlotOffset, Tagged(a.live, true) + Tagged(a.gone, false));
    forall s | s in AllSlots(a) ensures s.zi.headerOffset <= a.end {
      if s.keep { StoredShape(a.data, a.end, s.zi); } else {
        var last := a.live[|a.live| - 1];
        assert last in a.live;
        StoredShape(a.data, a.end, last);
      }
    }
  }

  lemma AllSlotsDistinct(a: Archive)
    requires NoDuplicates(a.live)
    ensures KeptNamesDiffer(AllSlots(a))
  {
    var slots := AllSlots(a);
    AllSlotsCover(a);
    SortBySorts(SlotOffset, Tagged(a.live, true) + Tagged(a.gone, false));
    forall i, j | 0 <= i < j < |slots| && slots[i].keep && slots[j].keep
      ensures slots[i].zi.filename != slots[j].zi.filename
    {
      assert slots[i] in slots && slots[j] in slots;
      if slots[i].zi.filename == slots[j].zi.filename {
        NamesIdentify(a.live, slots[i].zi, slots[j].zi);
        assert slots[i] !in Tagged(a.gone, false);
        OnceInSeq(Tagged(a.live, true), slots[i]);
        TwiceInSeq(slots, i, j);
      }
    }
  }

  /** A kept slot has room for its whole record. */
  lemma SlotRoom(a: Archive, i: nat)
    requires Valid(a) && i < |AllSlots(a)| && AllSlots(a)[i].keep
    ensures var slots := AllSlots(a);
            && slots[i].zi in a.live
            && slots[i].zi.headerOffset < RecordEnd(a.data, slots[i].zi) <= SlotStart(slots, a.end, i + 1) <= a.end
  {
    AllSlotsCover(a);
    AllSlotsOk(a);
    var slots := AllSlots(a);
    var z := slots[i].zi;
    assert slots[i] in slots;
    StoredShape(a.data, a.end, z);
    if i + 1 < |slots| {
      var t := slots[i + 1];
      assert t in slots && SlotOffset(slots[i]) <= SlotOffset(t);
      if t.keep {
        ValidNoDuplicates(a);
        AllSlotsDistinct(a);
        assert t.zi != z;
      }
      assert Apart(a.data, z, t.zi);
    }
  }

  lemma SlotHoldsRecord(a: Archive, i: nat)
    requires Valid(a) && i < |AllSlots(a)| && AllSlots(a)[i].keep
    ensures var slots := AllSlots(a);
            var off, e := slots[i].zi.headerOffset, SlotStart(slots, a.end, i + 1);
            && slots[i].zi in a.live
            && off < RecordEnd(a.data, slots[i].zi) <= e <= |a.data|
            && SlotBytes(a.data, slots, a.end, i) == a.data[off..e]
  {
    SlotRoom(a, i);
  }

  lemma {:induction false} MovedNoDuplicates(data: Bytes, slots: seq<Slot>, end: nat, n: nat)
    requires n <= |slots|
    requires KeptNamesDiffer(slots)
    ensures NoDuplicates(Moved(data, slots, end, n))
  {
    if n > 0 {
      MovedNoDuplicates(data, slots, end, n - 1);
      var init := Moved(data, slots, end, n - 1);
      forall k | 0 <= k < |init| && slots[n - 1].keep ensures init[k].filename != slots[n - 1].zi.filename {
        MovedMembers(data, slots, end, n - 1, init[k]);
      }
    }
  }

  /** One kept member, before and after compaction. */
  lemma CompactedMember(a: Archive, i: nat)
    requires Valid(a) && a.gone != [] && i < |AllSlots(a)| && AllSlots(a)[i].keep
    ensures var slots, b := AllSlots(a), CloseStep(a);
            var z := slots[i].zi;
            var to := |Kept(a.data, slots, a.end, i)|;
            var z' := z.(headerOffset := to);
            && z in a.live && z' in b.live && Stored(b.data, b.end, z')
            && MemberBytes(b.data, z') == MemberBytes(a.data, z)
            && to < RecordEnd(b.data, z') <= |Kept(a.data, slots, a.end, i + 1)|
            && RecordEnd(b.data, z') - to == RecordEnd(a.data, z) - z.headerOffset
  {
    hide Valid, RecordEnd, MemberBytes, Moved, AllSlots, SlotBytes;
    var slots, b := AllSlots(a), CloseStep(a);
    var z := slots[i].zi;
    var to := |Kept(a.data, slots, a.end, i)|;
    var z' := z.(headerOffset := to);
    SlotHoldsRecord(a, i);
    KeptAt(a.data, slots, a.end, i, |slots|);
    var off, len, rec := z.headerOffset, |SlotBytes(a.data, slots, a.end, i)|, RecordEnd(a.data, z) - z.headerOffset;
    SubSlice(a.data, off, b.data, to, len, 0, rec);
    LiveStored(a, z);
    StoredMoves(a.data, a.end, z, b.data, b.end, to);
    MovedMembers(a.data, slots, a.end, |slots|, z');
  }

  lemma LiveStored(a: Archive, z: ZipInfo)
    requires Valid(a) && z in a.live
    ensures Stored(a.data, a.end, z)
  {
  }

  /** close: afterwards the file is exactly the kept records from byte 0, nothing is retired,
      and the archive still reads back as the same map. */
  lemma CloseSound(a: Archive)
    requires Valid(a)
    ensures var b := CloseStep(a);
            && Valid(b) && b.gone == []
            && (a.gone != [] ==> b.end == |b.data|)
            && ReadBack(b.data, b.live) == ReadBack(a.data, a.live)
  {
    if a.gone != [] {
      CompactedValid(a);
      CompactedContents(a);
    }
  }

  lemma CompactedValid(a: Archive)
    requires Valid(a) && a.gone != []
    ensures Valid(CloseStep(a))
  {
    var slots, b := AllSlots(a), CloseStep(a);
    AllSlotsDistinct(a);
    MovedNoDuplicates(a.data, slots, a.end, |slots|);
    forall z | z in b.live ensures Stored(b.data, b.end, z) {
      var i := MovedFrom(a, z);
    }
    forall y, z | y in b.live && z in b.live && y != z ensures Apart(b.data, y, z) {
      CompactedApart(a, y, z);
    }
  }

  lemma CompactedApart(a: Archive, y: ZipInfo, z: ZipInfo)
    requires Valid(a) && a.gone != [] && y in CloseStep(a).live && z in CloseStep(a).live && y != z
    ensures Apart(CloseStep(a).data, y, z)
  {
    hide RecordEnd, AllSlots, CloseStep, Valid, Kept, Stored, MemberBytes;
    var i := MovedFrom(a, y);
    var j := MovedFrom(a, z);
    if i < j {
      KeptGrows(a.data, AllSlots(a), a.end, i + 1, j);
    } else if j < i {
      KeptGrows(a.data, AllSlots(a), a.end, j + 1, i);
    }
  }

  /** Where a compacted entry came from. */
  lemma MovedFrom(a: Archive, z: ZipInfo) returns (i: nat)
    requires Valid(a) && a.gone != [] && z in CloseStep(a).live
    ensures var slots, b := AllSlots(a), CloseStep(a);
            && i < |slots| && slots[i].keep && slots[i].zi in a.live
            && z == slots[i].zi.(headerOffset := |Kept(a.data, slots, a.end, i)|)
            && Stored(b.data, b.end, z)
            && MemberBytes(b.data, z) == MemberBytes(a.data, slots[i].zi)
            && z.headerOffset < RecordEnd(b.data, z) <= |Kept(a.data, slots, a.end, i + 1)|
  {
    var slots := AllSlots(a);
    MovedMembers(a.data, slots, a.end, |slots|, z);
    i :| 0 <= i < |slots| && slots[i].keep && z == slots[i].zi.(headerOffset := |Kept(a.data, slots, a.end, i)|);
    CompactedMember(a, i);
  }

  lemma CompactedContents(a: Archive)
    requires Valid(a) && a.gone != []
    ensures ReadBack(CloseStep(a).data, CloseStep(a).live) == ReadBack(a.data, a.live)
  {
    var slots, b := AllSlots(a), CloseStep(a);
    CompactedValid(a);
    ValidNoDuplicates(a);
    ValidNoDuplicates(b);
    AllSlotsCover(a);
    var before := (z: ZipInfo) => MemberBytes(a.data, z);
    var after := (z: ZipInfo) => MemberBytes(b.data, z);
    var m := ToMap(before, a.live);
    ToMapRepresents(before, a.live);
    forall z | z in b.live ensures z.filename in m && m[z.filename] == after(z) {
      var i := MovedFrom(a, z);
    }
    forall n | n in m ensures Lists(b.live, n) {
      assert Lists(a.live, n);
      var z :| z in a.live && z.filename == n;
      var s := Slot(z, true);
      assert s in slots;
      var i :| 0 <= i < |slots| && slots[i] == s;
      CompactedMember(a, i);
    }
    RepresentsOne(after, b.live, m);
  }

  /** The whole life of an archive: writes, then close. What a reader finds through the directory
      is what was there before, updated by the writes in order. */
  lemma WritesThenClose(a: Archive, stored: bool, ops: seq<Write>)
    requires Valid(a) && forall op :: op in ops ==> op.Ok()
    requires ops != [] ==> TruncatesNothing(a.live, ops[0].name)
    ensures var b := CloseStep(Run(a, stored, ops));
            && Valid(b) && b.gone == []
            && ReadBack(b.data, b.live) == Updates(ReadBack(a.data, a.live), ops)
  {
    RunSound(a, stored, ops);
    CloseSound(Run(a, stored, ops));
  }

  /** The file while close is at slot i: kept bytes packed below, everything from slot i on as it was. */
  ghost predicate Copying(data: Bytes, slots: seq<Slot>, end: nat, i: nat, cur: Bytes) {
    && i <= |slots| && SlotsOk(slots, end) && end <= |data|
    && |cur| == |data|
    && |Kept(data, slots, end, i)| <= SlotStart(slots, end, i) <= |data|
    && cur[..|Kept(data, slots, end, i)|] == Kept(data, slots, end, i)
    && cur[SlotStart(slots, end, i)..] == data[SlotStart(slots, end, i)..]
  }

  lemma SlotsAscend(slots: seq<Slot>, end: nat, i: nat)
    requires i < |slots| && SlotsOk(slots, end)
    ensures SlotStart(slots, end, i) <= SlotStart(slots, end, i + 1) <= end
  {
    if i + 1 < |slots| { assert SlotOffset(slots[i]) <= SlotOffset(slots[i + 1]); }
  }

  /** Reading a slot from the half-compacted file still gives its original bytes, and writing
      them at the packed position reaches at most to the next slot. */
  lemma CopyStep(data: Bytes, slots: seq<Slot>, end: nat, i: nat, cur: Bytes)
    requires i < |slots| && Copying(data, slots, end, i, cur)
    ensures var off, len := SlotStart(slots, end, i), SlotStart(slots, end, i + 1) - SlotStart(slots, end, i);
            var content := SlotBytes(data, slots, end, i);
            var to := |Kept(data, slots, end, i)|;
            && len >= 0 && Slice(cur, off, len) == content && |content| == len && to <= off
            && Copying(data, slots, end, i + 1, if slots[i].keep then Overwrite(cur, to, content) else cur)
  {
    SlotsAscend(slots, end, i);
    var off, next := SlotStart(slots, end, i), SlotStart(slots, end, i + 1);
    var content := SlotBytes(data, slots, end, i);
    var to := |Kept(data, slots, end, i)|;
    assert content == data[off..next];
    assert cur[off..next] == content by {
      assert cur[off..][..next - off] == cur[off..next];
      assert data[off..][..next - off] == data[off..next];
    }
    assert cur[next..] == data[next..] by {
      assert cur[off..][next - off..] == cur[next..];
      assert data[off..][next - off..] == data[next..];
    }
    if slots[i].keep {
      var cur' := Overwrite(cur, to, content);
      assert cur'[..to + |content|] == cur[..to] + content by {
        assert cur'[..to] == cur[..to];
        assert cur'[..to + |content|] == cur'[..to] + cur'[to..to + |content|];
      }
      assert cur'[next..] == cur[next..];
    }
  }

  lemma CopyNothing(data: Bytes, slots: seq<Slot>, end: nat)
    ensures Kept(data, slots, end, 0) == [] && Moved(data, slots, end, 0) == []
  {
  }

  lemma CopyOne(data: Bytes, slots: seq<Slot>, end: nat, i: nat)
    requires i < |slots|
    ensures var k := Kept(data, slots, end, i);
            && Kept(data, slots, end, i + 1) == k + (if slots[i].keep then SlotBytes(data, slots, end, i) else [])
            && Moved(data, slots, end, i + 1) ==
                 Moved(data, slots, end, i) + (if slots[i].keep then [slots[i].zi.(headerOffset := |k|)] else [])
  {
  }

  lemma CopyingStart(a: Archive)
    requires Valid(a)
    ensures Copying(a.data, AllSlots(a), a.end, 0, a.data)
  {
    AllSlotsOk(a);
  }

  lemma CopyingEnd(data: Bytes, slots: seq<Slot>, end: nat, cur: Bytes)
    requires Copying(data, slots, end, |slots|, cur)
    ensures var kept := Kept(data, slots, end, |slots|);
            |kept| <= |cur| && cur[..|kept|] == kept
  {
  }

  lemma SomethingKept(a: Archive)
    requires Valid(a) && a.gone != []
    ensures exists k :: 0 <= k < |AllSlots(a)| && AllSlots(a)[k].keep
  {
    AllSlotsCover(a);
    assert a.live[0] in a.live;
    assert Slot(a.live[0], true) in AllSlots(a);
  }

  // ---------- the class ----------

  function Names(infos: seq<ZipInfo>): set<Bytes> {
    set z | z in infos :: z.filename
  }

  lemma NamesRest(live: seq<ZipInfo>, i: nat)
    requires NoDuplicates(live) && i < |live|
    ensures Names(RemoveAt(live, i)) == Names(live) - {live[i].filename}
    ensures live[i].filename in Names(live)
  {
    RestMembers(live, i);
    var rest := RemoveAt(live, i);
    forall n ensures n in Names(rest) <==> n in Names(live) - {live[i].filename} {
      if n in Names(live) - {live[i].filename} {
        var z :| z in live && z.filename == n;
        assert z in rest;
      }
    }
  }

  lemma NamesSorted(rest: seq<ZipInfo>, z: ZipInfo)
    ensures Names(SortBy(OffsetOf, rest + [z])) == Names(rest) + {z.filename}
  {
    SortBySorts(OffsetOf, rest + [z]);
    assert z in rest + [z];
    forall y | y in rest ensures y in rest + [z] {}
    forall n ensures n in Names(SortBy(OffsetOf, rest + [z])) <==> n in Names(rest) + {z.filename} {
      if n in Names(rest) {
        var y :| y in rest && y.filename == n;
        assert y in SortBy(OffsetOf, rest + [z]);
      }
    }
  }

  lemma OverwriteReaches(data: Bytes, pos: nat, bs: Bytes)
    requires pos <= |data|
    ensures |Overwrite(data, pos, bs)| >= |data| && |Overwrite(data, pos, bs)| >= pos + |bs|
  {
  }

  lemma LiveInFile(a: Archive, z: ZipInfo)
    requires Valid(a) && z in a.live
    ensures z.headerOffset < a.end <= |a.data|
  {
    StoredShape(a.data, a.end, z);
  }

  class ZipFile {
    const fp: File
    const compressed: bool
    const deflate: Bytes -> Bytes
    var filelist: seq<ZipInfo>
    var remove: seq<ZipInfo>
    /** Only asked whether it has a name. */
    var nameToInfo: set<Bytes>
    var end: nat

    function State(): Archive
      reads this, fp
    {
      Archive(fp.data, filelist, remove, end)
    }

    /** Between calls the cursor is at the end of the records, and the name index is that of the directory. */
    ghost predicate Consistent()
      reads this, fp
    {
      && fp.pos == end <= |fp.data|
      && nameToInfo == Names(filelist)
    }

    function Payload(bytes: Bytes): Bytes {
      if compressed then deflate(bytes) else bytes
    }

    /** Opening: the base class has read the directory and left the cursor where it starts. */
    constructor (file: File, infos: seq<ZipInfo>, compress: bool, deflater: Bytes -> Bytes)
      requires file.pos <= |file.data|
      ensures Consistent() && fp == file && compressed == compress && deflate == deflater
      ensures State() == Archive(file.data, infos, [], file.pos)
    {
      fp, compressed, deflate := file, compress, deflater;
      filelist, remove := infos, [];
      nameToInfo := Names(infos);
      end := file.pos;
    }

    /** writestr of the base class: one record at the cursor, one entry at the end of the list. */
    method BaseWriteStr(name: Bytes, payload: Bytes, attrs: Attrs)
      modifies this`filelist, this`nameToInfo, fp
      ensures fp.data == Overwrite(old(fp.data), old(fp.pos), NewRecord(name, payload, attrs))
      ensures fp.pos == old(fp.pos) + |NewRecord(name, payload, attrs)|
      ensures filelist == old(filelist) + [ZipInfo(name, old(fp.pos), |payload|)]
      ensures nameToInfo == old(nameToInfo) + {name}
    {
      var z := ZipInfo(name, fp.pos, |payload|);
      fp.Write(NewRecord(name, payload, attrs));
      filelist := filelist + [z];
      nameToInfo := nameToInfo + {name};
    }

    /** The search from the end of the list. */
    method FindLast(name: Bytes) returns (i: nat)
      requires name in Names(filelist)
      ensures i < |filelist| && i == LastIndex(filelist, name) && filelist[i].filename == name
    {
      i := |filelist|;
      while i > 0
        invariant 0 <= i <= |filelist|
        invariant forall k :: i <= k < |filelist| ==> filelist[k].filename != name
      {
        i := i - 1;
        if filelist[i].filename == name { break; }
      }
    }

    /** Forget the entry being overwritten, if there is one, and leave the cursor where its
        successor goes; doSeek says the cursor has to return to the end afterwards. */
    method Unhook(name: Bytes, payload: Bytes, ghost attrs: Attrs) returns (doSeek: bool)
      requires Consistent() && Valid(State())
      modifies this`filelist, this`remove, this`nameToInfo, fp
      ensures nameToInfo + {name} == Names(filelist) + {name} && fp.pos <= |fp.data|
      ensures doSeek ==> |fp.data| >= end
      ensures WriteStep(old(State()), name, payload, !compressed, attrs) ==
              Archive(Overwrite(fp.data, fp.pos, NewRecord(name, payload, attrs)),
                      SortBy(OffsetOf, filelist + [ZipInfo(name, fp.pos, |payload|)]), remove,
                      if doSeek then end else fp.pos + |NewRecord(name, payload, attrs)|)
    {
      hide NewRecord, SortBy, Valid, Overwrite, NoDuplicates, LastIndex;
      ghost var a := State();
      doSeek := false;
      ValidNoDuplicates(a);
      if name in nameToInfo {
        var i := FindLast(name);
        var zi := filelist[i];
        NamesRest(filelist, i);
        LiveInFile(a, zi);
        if (!compressed && zi.compressSize == |payload|) || i + 1 == |filelist| {
          fp.Seek(zi.headerOffset);
          if i + 1 == |filelist| {
            fp.Truncate();
          } else {
            doSeek := true;
          }
          filelist := filelist[..i] + filelist[i + 1..];
          nameToInfo := nameToInfo - {name};
        } else {
          remove := remove + [zi];
          filelist := filelist[..i] + filelist[i + 1..];
        }
      }
    }

    method WriteStr(name: Bytes, bytes: Bytes, attrs: Attrs)
      requires Consistent() && Valid(State()) && Packable(name, Payload(bytes), attrs)
      modifies this`filelist, this`remove, this`nameToInfo, this`end, fp
      ensures Consistent()
      ensures State() == WriteStep(old(State()), name, Payload(bytes), !compressed, attrs)
      ensures old(TruncatesNothing(filelist, name)) ==>
                && Valid(State())
                && ReadBack(fp.data, filelist) == old(ReadBack(fp.data, filelist))[name := if compressed then deflate(bytes) else bytes]
    {
      hide RecordEnd, NewRecord, SortBy, Valid, WriteStep, Packable, Overwrite, TruncatesNothing, ReadBack;
      var payload := Payload(bytes);
      if TruncatesNothing(filelist, name) { WriteStepSound(State(), name, payload, !compressed, attrs); }
      var doSeek := Unhook(name, payload, attrs);
      OverwriteReaches(fp.data, fp.pos, NewRecord(name, payload, attrs));
      NamesSorted(filelist, ZipInfo(name, fp.pos, |payload|));
      BaseWriteStr(name, payload, attrs);
      filelist := SortBy(OffsetOf, filelist);
      if doSeek {
        fp.Seek(end);
      }
      end := fp.pos;
    }

    /** The copy loop: kept slots go down one after the other over the file being read. */
    method Compact(slots: seq<Slot>) returns (toPos: nat, moved: seq<ZipInfo>)
      requires Copying(fp.data, slots, end, 0, fp.data)
      requires exists k :: 0 <= k < |slots| && slots[k].keep
      modifies fp
      ensures Copying(old(fp.data), slots, end, |slots|, fp.data)
      ensures fp.pos == toPos == |Kept(old(fp.data), slots, end, |slots|)|
      ensures moved == Moved(old(fp.data), slots, end, |slots|)
    {
      hide Copying, SlotBytes, Overwrite, Kept, Moved;
      ghost var data := fp.data;
      CopyNothing(data, slots, end);
      toPos := 0;
      moved := [];
      var i := 0;
      while i < |slots|
        invariant 0 <= i <= |slots|
        invariant Copying(data, slots, end, i, fp.data)
        invariant toPos == |Kept(data, slots, end, i)|
        invariant moved == Moved(data, slots, end, i)
        invariant (exists k :: 0 <= k < i && slots[k].keep) ==> fp.pos == toPos
      {
        CopyStep(data, slots, end, i, fp.data);
        CopyOne(data, slots, end, i);
        var length := (if i + 1 < |slots| then slots[i + 1].zi.headerOffset else end) - slots[i].zi.headerOffset;
        if slots[i].keep {
          var oldoff := slots[i].zi.headerOffset;
          moved := moved + [slots[i].zi.(headerOffset := toPos)];
          fp.Seek(oldoff);
          var content := fp.Read(length);
          fp.Seek(toPos);
          fp.Write(content);
          toPos := toPos + length;
        }
        i := i + 1;
      }
    }

    /** Compaction in place, when anything was retired. The directory goes where the cursor is left. */
    method Close() returns (dirAt: nat)
      requires Consistent() && Valid(State())
      modifies this`filelist, this`remove, fp
      ensures Archive(fp.data, filelist, remove, dirAt) == CloseStep(old(State()))
      ensures fp.pos == dirAt
    {
      if remove == [] {
        return end;
      }
      ghost var a := State();
      var slots := SortBy(SlotOffset, Tagged(filelist, true) + Tagged(remove, false));
      CopyingStart(a);
      SomethingKept(a);
      remove := [];
      var toPos;
      toPos, filelist := Compact(slots);
      CopyingEnd(a.data, slots, end, fp.data);
      fp.Truncate();
      dirAt := fp.pos;
    }
  }
}
