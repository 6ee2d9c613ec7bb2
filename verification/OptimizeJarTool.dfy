/** The loops of optimizejars.py, proved to compute OptimizeJar.Optimize. */
module OptimizeJarTool {
  import opened Basics
  import opened LittleEndian
  import opened ZipStruct
  import opened ZipFormats
  import opened BinaryFile
  import opened OptimizeJar

  class BinaryBlob {
    const data: Bytes
    var offset: nat

    constructor (contents: Bytes)
      ensures data == contents && offset == 0
    {
      data, offset := contents, 0;
    }

    method ReadAt(pos: nat, length: nat) returns (s: Bytes)
      modifies this
      ensures s == Slice(data, pos, length) && offset == pos + length
    {
      offset := pos + length;
      s := Slice(data, pos, length);
    }

    /** The string fields of a record, each as long as one of its numbers says. */
    method ReadStrings(f: Format, nums: seq<nat>) returns (strs: seq<Bytes>)
      requires f.Valid() && |nums| == |f.widths|
      modifies this
      ensures strs == ReadStrs(data, StrLens(f.lengths, nums), old(offset))
      ensures offset == old(offset) + SizeOf(StrLens(f.lengths, nums))
    {
      ghost var lens := StrLens(f.lengths, nums);
      strs := [];
      var j := 0;
      assert lens[0..] == lens;
      while j < |f.lengths|
        invariant 0 <= j <= |f.lengths|
        invariant offset + SizeOf(lens[j..]) == old(offset) + SizeOf(lens)
        invariant strs + ReadStrs(data, lens[j..], offset) == ReadStrs(data, lens, old(offset))
      {
        assert lens[j..] == [lens[j]] + lens[j + 1..];
        var s := ReadAt(offset, nums[f.lengths[j]]);
        strs := strs + [s];
        j := j + 1;
      }
      assert lens[j..] == [];
    }

    /** None is an exception: of struct.unpack on too few bytes, or of the serialization check,
        which this contract shows never to be raised. */
    method ReadStruct(f: Format, pos: nat) returns (r: Option<Record>)
      requires f.Valid() && SizeOf(f.widths) > 0
      modifies this
      ensures r == Read(data, f, pos)
      ensures r.Some? ==> offset == ReadEnd(f, r.value, pos)
    {
      hide UnpackNums, ReadStrs, Pack;
      var size := SizeOf(f.widths);
      var fixed := ReadAt(pos, size);
      if |fixed| < size {
        return None;
      }
      assert pos + size <= |data| && fixed == data[pos..pos + size];
      var nums := UnpackNums(f.widths, fixed);
      var strs := ReadStrings(f, nums);
      r := Some(Record(nums, strs));
      SerializationNeverFails(data, f, pos);
      var bytes := ReadAt(pos, offset - pos);
      if Pack(f, r.value) != bytes {
        return None;
      }
    }
  }

  lemma {:induction false} StrippedAppend(cd: seq<Entry>, e: Entry)
    ensures Stripped(cd + [e]) == Stripped(cd) + Stripped([e])
  {
    if cd == [] {
      assert cd + [e] == [e];
    } else {
      assert (cd + [e])[1..] == cd[1..] + [e];
      StrippedAppend(cd[1..], e);
    }
  }

  /** A list read so far, followed by what is still to be read. */
  function After(list: seq<Entry>, rest: Option<seq<Entry>>): Option<seq<Entry>> {
    match rest
    case None => None
    case Some(r) => Some(list + r)
  }

  lemma AfterNone(rest: Option<seq<Entry>>)
    ensures After([], rest) == rest
  {
    if rest.Some? { assert [] + rest.value == rest.value; }
  }

  lemma AfterOne(list: seq<Entry>, e: Entry, rest: Option<seq<Entry>>)
    ensures After(list, After([e], rest)) == After(list + [e], rest)
  {
    if rest.Some? { assert list + ([e] + rest.value) == (list + [e]) + rest.value; }
  }

  /** The loop over the directory entries, counting what will be stripped. */
  method ReadDirectory(blob: BinaryBlob, entries: nat) returns (cd: Option<seq<Entry>>, totalStripped: nat)
    modifies blob
    ensures cd == ReadDir(blob.data, old(blob.offset), entries)
    ensures cd.Some? ==> totalStripped == Stripped(cd.value)
  {
    hide Read, ReadEnd, Pack;
    FixedSizes();
    totalStripped := 0;
    var list: seq<Entry> := [];
    AfterNone(ReadDir(blob.data, blob.offset, entries));
    for i := 0 to entries
      invariant |list| == i && totalStripped == Stripped(list)
      invariant ReadDir(blob.data, old(blob.offset), entries) == After(list, ReadDir(blob.data, blob.offset, entries - i))
    {
      ghost var at := blob.offset;
      var r := blob.ReadStruct(CDIR_ENTRY, blob.offset);
      if r == None {
        return None, 0;
      }
      var entry: Entry := r.value;
      StrippedAppend(list, entry);
      if IsDirName(EntryName(entry)) {
        totalStripped := totalStripped + |Pack(CDIR_ENTRY, entry)|;
      } else {
        totalStripped := totalStripped + entry.nums[CDIR_EXTRA_LEN];
      }
      AfterOne(list, entry, ReadDir(blob.data, blob.offset, entries - i - 1));
      list := list + [entry];
    }
    assert list + [] == list;
    cd := Some(list);
  }

  /** The inner loop: the first entry from k on with the name. */
  method FindEntry(cd: seq<Entry>, name: Bytes, k: nat) returns (i: nat)
    requires k <= |cd|
    ensures i == Find(cd, name, k)
  {
    i := k;
    while i < |cd| && EntryName(cd[i]) != name
      invariant k <= i <= |cd|
      invariant Find(cd, name, k) == Find(cd, name, i)
    {
      i := i + 1;
    }
  }

  /** The nested loops that swap each logged entry to the front. */
  method ReorderByLog(directory: seq<Entry>, inlog: seq<Bytes>) returns (o: Order)
    ensures o == Reorder(Order(directory, 0), inlog)
  {
    hide Find, EntryName, Reorder;
    ReorderNone(Order(directory, 0));
    var cd, count := directory, 0;
    var dupGuard: set<Bytes> := {};
    for n := 0 to |inlog|
      invariant count <= |cd|
      invariant Order(cd, count) == Reorder(Order(directory, 0), inlog[..n])
      invariant forall name :: name in dupGuard <==> name in inlog[..n]
    {
      var name := inlog[n];
      ReorderOne(Order(directory, 0), inlog, n);
      assert inlog[..n + 1] == inlog[..n] + [name];
      if name !in dupGuard {
        dupGuard := dupGuard + {name};
        var i := FindEntry(cd, name, count);
        if i < |cd| {
          cd := cd[i := cd[count]][count := cd[i]];
          count := count + 1;
        }
      }
    }
    assert inlog[..|inlog|] == inlog;
    o := Order(cd, count);
  }

  lemma ReorderNone(o: Order)
    requires OrderOk(o)
    ensures Reorder(o, []) == o
  {
  }

  lemma ReorderOne(o: Order, log: seq<Bytes>, n: nat)
    requires OrderOk(o) && n < |log|
    ensures Reorder(o, log[..n + 1]) ==
            if log[n] in log[..n] then Reorder(o, log[..n]) else Place(Reorder(o, log[..n]), log[n])
  {
    assert log[..n + 1][..n] == log[..n];
  }

  lemma NoMembers(front: nat)
    ensures Records([]) == [] && Directory([]) == [] && OutLog(front, []) == [] && Overwrite([], 0, []) == []
    ensures forall start: nat :: Overwrite([], start, []) == []
  {
  }

  lemma OneMore(ms: seq<Member>, m: Member, front: nat)
    ensures Records(ms + [m]) == Records(ms) + Pack(LOCAL_FILE, m.local)
    ensures Directory(ms + [m]) == Directory(ms) + Pack(CDIR_ENTRY, m.entry)
    ensures OutLog(front, ms + [m]) ==
            OutLog(front, ms) + if front >= m.oldOffset + |Pack(LOCAL_FILE, m.local)| then [EntryName(m.entry)] else []
  {
    assert (ms + [m])[..|ms|] == ms;
  }

  lemma ReadAheadEmpty(start: nat, count: nat)
    ensures ReadAhead(start, [], count) == 0
  {
  }

  lemma ReadAheadGrows(start: nat, ms: seq<Member>, m: Member, count: nat)
    ensures ReadAhead(start, ms + [m], count) ==
            if |ms| + 1 == count then start + |Records(ms + [m])| else ReadAhead(start, ms, count)
  {
    if count <= |ms| { assert (ms + [m])[..count] == ms[..count]; }
    else if count == |ms| + 1 { assert (ms + [m])[..count] == ms + [m]; }
  }

  /** The writing loop: records to the file, entries to cdir_data, and on the way either the
      readahead position (ordered) or the recovered log (plain). */
  method WriteMembers(blob: BinaryBlob, outfd: File, cd: seq<Entry>, ordered: bool, start: nat, count: nat, front: nat)
      returns (ghost ms: Option<seq<Member>>, ok: bool, cdirData: Bytes, outOffset: nat, entries: int, readahead: nat, outlog: seq<Bytes>)
    requires outfd.pos == start && outfd.data == [] && (ordered || start == 0) && (ordered ==> front == 0)
    modifies blob, outfd
    ensures ms == WriteEntries(blob.data, start, cd) && ok == ms.Some?
    ensures ok ==>
      && cdirData == Directory(ms.value) && outOffset == start + |Records(ms.value)| == outfd.pos
      && entries == |ms.value|
      && outfd.data == Overwrite([], start, Records(ms.value))
      && readahead == (if ordered then ReadAhead(start, ms.value, count) else front)
      && outlog == (if ordered then [] else OutLog(front, ms.value))
  {
    hide Read, CleanEntry, CleanLocal, Overwrite, ReadAhead, WriteEntry, EntryName, IsDirName, Pack, Records,
         Directory, OutLog;
    NoMembers(front);
    FixedSizes();
    ReadAheadEmpty(start, count);
    cdirData, outOffset, entries, readahead, outlog := [], start, |cd|, front, [];
    var writtenCount := 0;
    ghost var done: seq<Member> := [];
    ms, ok := None, false;
    for n := 0 to |cd|
      invariant WriteEntries(blob.data, start, cd[..n]) == Some(done)
      invariant cdirData == Directory(done) && outOffset == start + |Records(done)| == outfd.pos
      invariant entries == |done| + (|cd| - n) && writtenCount == |done|
      invariant outfd.data == Overwrite([], start, Records(done))
      invariant readahead == if ordered then ReadAhead(start, done, count) else front
      invariant outlog == if ordered then [] else OutLog(front, done)
    {
      var entry := cd[n];
      assert cd[..n + 1][..n] == cd[..n];
      WriteEntryCases(blob.data, start, done, entry);
      var r := blob.ReadStruct(LOCAL_FILE, entry.nums[CDIR_OFFSET]);
      if r == None || r.value.strs[NAME] != EntryName(entry) {
        ErrorStays(blob.data, start, cd, n + 1);
        return;
      }
      if IsDirName(EntryName(entry)) {
        entries := entries - 1;
        continue;
      }
      if outOffset >= LIMIT32 {
        ErrorStays(blob.data, start, cd, n + 1);
        return;
      }
      var jarfile := CleanLocal(r.value);
      var data := Pack(LOCAL_FILE, jarfile);
      OverwriteTwice([], start, Records(done), data);
      outfd.Write(data);
      var oldEntryOffset := entry.nums[CDIR_OFFSET];
      var newEntry := CleanEntry(entry, outOffset);
      ghost var m := Member(newEntry, jarfile, oldEntryOffset);
      ReadAheadGrows(start, done, m, count);
      OneMore(done, m, front);
      done := done + [m];
      outOffset := outOffset + |data|;
      cdirData := cdirData + Pack(CDIR_ENTRY, newEntry);
      writtenCount := writtenCount + 1;
      if ordered {
        if writtenCount == count {
          readahead := outOffset;
        }
      } else if readahead >= oldEntryOffset + |data| {
        outlog := outlog + [EntryName(newEntry)];
      }
    }
    assert cd[..|cd|] == cd;
    ms, ok := Some(done), true;
  }

  /** The four outcomes of one round. */
  lemma WriteEntryCases(jar: Bytes, start: nat, ms: seq<Member>, e: Entry)
    ensures var r, off := Read(jar, LOCAL_FILE, e.nums[CDIR_OFFSET]), start + |Records(ms)|;
            WriteEntry(jar, start, ms, e) ==
              if r == None || r.value.strs[NAME] != EntryName(e) then None
              else if IsDirName(EntryName(e)) then Some(ms)
              else if off >= LIMIT32 then None
              else Some(ms + [Member(CleanEntry(e, off), CleanLocal(r.value), e.nums[CDIR_OFFSET])])
  {
  }

  lemma {:induction false} ErrorStays(jar: Bytes, start: nat, cd: seq<Entry>, n: nat)
    requires n <= |cd| && WriteEntries(jar, start, cd[..n]) == None
    ensures WriteEntries(jar, start, cd) == None
  {
    if n < |cd| {
      assert cd[..|cd| - 1][..n] == cd[..n];
      ErrorStays(jar, start, cd[..|cd| - 1], n);
    } else {
      assert cd[..n] == cd;
    }
  }

  /** After the loop: directory, end record and, for an ordered jar, the word in front and the
      second end record. */
  method Finish(outfd: File, inlog: Option<seq<Bytes>>, dirend: Record, ghost ms: seq<Member>, cdirData: Bytes,
                entries: int, start: nat, outOffset: nat, readahead: nat, outlog: seq<Bytes>, ghost count: nat, ghost front: nat)
      returns (r: Option<Result>)
    requires |dirend.nums| == 8 && entries == |ms| && cdirData == Directory(ms)
    requires outOffset == start + |Records(ms)| == outfd.pos && (inlog == None ==> start == 0)
    requires outfd.data == Overwrite([], start, Records(ms))
    requires inlog.Some? ==> readahead == ReadAhead(start, ms, count) && outlog == []
    requires inlog == None ==> outlog == OutLog(front, ms)
    modifies outfd
    ensures r == if inlog.Some? then OrderedJar(dirend, start, ms, count) else PlainJar(dirend, ms, front)
  {
    hide Overwrite, Fits, ReadAhead, OutLog, Records, Directory;
    var cdirOffset := if inlog == None then outOffset else FRONT;
    var end := NewEnd(dirend, entries, |cdirData|, cdirOffset);
    if !Fits(END_WIDTHS, end.nums) {
      return None;
    }
    var direndData := Pack(CDIR_END, end);
    OverwriteTwice(outfd.data, cdirOffset, cdirData, direndData);
    outfd.Seek(cdirOffset);
    outfd.Write(cdirData);
    outfd.Write(direndData);
    if inlog.Some? {
      if readahead >= LIMIT32 {
        return None;
      }
      outfd.Seek(0);
      outfd.Write(EncodeLE(4, readahead));
      outfd.Seek(outOffset);
      outfd.Write(direndData);
    } else {
      PlainBytes(Records(ms), cdirData + direndData);
    }
    r := Some(Result(outfd.data, outlog));
  }

  lemma PlainBytes(records: Bytes, tail: Bytes)
    ensures Overwrite(Overwrite([], 0, records), |records|, tail) == records + tail
  {
  }

  /** optimizejar itself. */
  method OptimizeJarFile(jar: Bytes, inlog: Option<seq<Bytes>>) returns (r: Option<Result>)
    ensures r == Optimize(jar, inlog)
  {
    hide ReadDir, WriteEntries, Reorder, Overwrite, OrderedJar, PlainJar, Records, Directory, Read, Stripped,
         ReadAhead, OutLog;
    FixedSizes();
    var jarblob := new BinaryBlob(jar);
    if |jar| < END_SIZE {
      return None;
    }
    var e := jarblob.ReadStruct(CDIR_END, |jar| - END_SIZE);
    if e == None || e.value.nums[END_SIG] != END_SIGNATURE {
      return None;
    }
    var dirend := e.value;
    var readahead := 0;
    if inlog == None && dirend.nums[END_CDIR_OFFSET] == FRONT {
      var word := jarblob.ReadAt(0, 4);
      readahead := DecodeLE(word);
    }
    ghost var front := readahead;
    jarblob.offset := dirend.nums[END_CDIR_OFFSET];
    var dir, totalStripped := ReadDirectory(jarblob, dirend.nums[END_ENTRIES]);
    if dir == None {
      return None;
    }
    var o := Order(dir.value, 0);
    var start := 0;
    if inlog.Some? {
      o := ReorderByLog(dir.value, inlog.value);
      if FRONT + dirend.nums[END_CDIR_SIZE] + END_SIZE - totalStripped < 0 {
        return None;
      }
      start := FRONT + dirend.nums[END_CDIR_SIZE] + END_SIZE - totalStripped;
    }
    var outfd := new File([], start);
    ghost var ms;
    var ok, cdirData, outOffset, entries, outlog;
    ms, ok, cdirData, outOffset, entries, readahead, outlog :=
      WriteMembers(jarblob, outfd, o.cd, inlog.Some?, start, o.count, readahead);
    if !ok {
      return None;
    }
    r := Finish(outfd, inlog, dirend, ms.value, cdirData, entries, start, outOffset, readahead, outlog, o.count, front);
  }
}
