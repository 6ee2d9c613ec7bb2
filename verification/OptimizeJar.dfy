/** optimizejars.py: reorder a jar by a startup log, put the directory in front, and back. */
module OptimizeJar {
  import opened Basics
  import opened LittleEndian
  import opened ZipStruct
  import opened ZipFormats
  import opened BinaryFile

  const LIMIT32: nat := 0x1_0000_0000
  const FRONT := 4                       // where an optimized jar has its directory
  const DATE_2010: nat := 15393          // January 1st, 2010 in DOS format
  const SLASH: Byte := 47


  predicate IsDirName(name: Bytes) {
    name != [] && name[|name| - 1] == SLASH
  }

  /** What read_struct returns for a directory entry. */
  type Entry = e: Record | |e.nums| == 17 && |e.strs| == 3 witness Record(seq(17, _ => 0), [[], [], []])

  /** What read_struct returns for a local header with its data. */
  type Local = l: Record | |l.nums| == 11 && |l.strs| == 3 witness Record(seq(11, _ => 0), [[], [], []])

  function EntryName(e: Entry): Bytes { e.strs[NAME] }

  // ---------- reading the directory ----------

  function ReadDir(jar: Bytes, pos: nat, n: nat): (r: Option<seq<Entry>>)
    ensures r.Some? ==> |r.value| == n
    decreases n
  {
    if n == 0 then Some([])
    else
      match Read(jar, CDIR_ENTRY, pos)
      case None => None
      case Some(e) =>
        match ReadDir(jar, ReadEnd(CDIR_ENTRY, e, pos), n - 1)
        case None => None
        case Some(rest) => Some([e] + rest)
  }

  function EntriesSize(cd: seq<Entry>): nat
  {
    if cd == [] then 0 else |Pack(CDIR_ENTRY, cd[0])| + EntriesSize(cd[1..])
  }

  /** total_stripped after the directory has been read. */
  function Stripped(cd: seq<Entry>): nat
  {
    if cd == [] then 0
    else (if IsDirName(EntryName(cd[0])) then |Pack(CDIR_ENTRY, cd[0])| else cd[0].nums[CDIR_EXTRA_LEN]) + Stripped(cd[1..])
  }

  // ---------- reordering by the log ----------

  /** First index from k on whose entry has this name, or the length. */
  function Find(cd: seq<Entry>, name: Bytes, k: nat): (i: nat)
    requires k <= |cd|
    ensures k <= i <= |cd|
    ensures i < |cd| ==> EntryName(cd[i]) == name
    ensures forall j :: k <= j < i ==> EntryName(cd[j]) != name
    decreases |cd| - k
  {
    if k == |cd| || EntryName(cd[k]) == name then k else Find(cd, name, k + 1)
  }

  function Swap(s: seq<Entry>, i: nat, k: nat): (r: seq<Entry>)
    requires i < |s| && k < |s|
    ensures |r| == |s|
    ensures multiset(r) == multiset(s)
    ensures forall x :: x in r <==> x in s
  {
    var r := s[i := s[k]][k := s[i]];
    assert forall x :: x in r <==> x in multiset(r);
    assert forall x :: x in s <==> x in multiset(s);
    r
  }

  datatype Order = Order(cd: seq<Entry>, count: nat)

  predicate OrderOk(o: Order) {
    o.count <= |o.cd|
  }

  /** One log line that has not been seen before. */
  function Place(o: Order, name: Bytes): (r: Order)
    requires OrderOk(o)
    ensures OrderOk(r) && multiset(r.cd) == multiset(o.cd) && |r.cd| == |o.cd|
  {
    var i := Find(o.cd, name, o.count);
    if i < |o.cd| then Order(Swap(o.cd, i, o.count), o.count + 1) else o
  }

  /** The directory after the first n log lines. */
  function Reorder(o: Order, log: seq<Bytes>): (r: Order)
    requires OrderOk(o)
    ensures OrderOk(r) && multiset(r.cd) == multiset(o.cd) && |r.cd| == |o.cd|
  {
    if log == [] then o
    else
      var init, name := log[..|log| - 1], log[|log| - 1];
      if name in init then Reorder(o, init) else Place(Reorder(o, init), name)
  }

  function NamesOf(cd: seq<Entry>): (ns: seq<Bytes>)
    ensures |ns| == |cd|
    ensures forall i :: 0 <= i < |ns| ==> ns[i] == EntryName(cd[i])
  {
    seq(|cd|, i requires 0 <= i < |cd| => EntryName(cd[i]))
  }

  /** What the log asks for: its lines that name something in the jar, each once, in log order. */
  function Wanted(log: seq<Bytes>, names: seq<Bytes>): seq<Bytes> {
    if log == [] then []
    else
      var init, name := log[..|log| - 1], log[|log| - 1];
      Wanted(init, names) + if name in names && name !in init then [name] else []
  }

  /** The names in both, and no other. */
  lemma {:induction false} WantedMembers(log: seq<Bytes>, names: seq<Bytes>, n: Bytes)
    ensures n in Wanted(log, names) <==> n in log && n in names
  {
    if log != [] {
      var init, name := log[..|log| - 1], log[|log| - 1];
      assert log == init + [name];
      WantedMembers(init, names, n);
    }
  }

  /** Where a name first stands in the log. */
  function FirstIn(log: seq<Bytes>, n: Bytes): (i: nat)
    ensures i <= |log| && (i < |log| <==> n in log)
    ensures i < |log| ==> log[i] == n && forall j :: 0 <= j < i ==> log[j] != n
  {
    if log == [] || log[0] == n then 0 else 1 + FirstIn(log[1..], n)
  }

  lemma FirstInPrefix(init: seq<Bytes>, last: Bytes, n: Bytes)
    ensures FirstIn(init + [last], n) == if n in init then FirstIn(init, n) else if n == last then |init| else |init| + 1
  {
    var log := init + [last];
    var i := FirstIn(log, n);
    if n in init {
      assert log[FirstIn(init, n)] == n;
    } else if n == last {
      assert log[|init|] == n;
    }
  }

  /** They stand in the order of the log, each once, by where they are first named there. */
  lemma {:induction false} WantedOrder(log: seq<Bytes>, names: seq<Bytes>, i: nat, j: nat)
    requires i < j < |Wanted(log, names)|
    ensures FirstIn(log, Wanted(log, names)[i]) < FirstIn(log, Wanted(log, names)[j])
  {
    var init, name := log[..|log| - 1], log[|log| - 1];
    var before := Wanted(init, names);
    assert log == init + [name];
    var a, b := Wanted(log, names)[i], Wanted(log, names)[j];
    FirstInPrefix(init, name, a);
    FirstInPrefix(init, name, b);
    assert a in before;
    WantedMembers(init, names, a);
    if j < |before| {
      assert b in before;
      WantedMembers(init, names, b);
      WantedOrder(init, names, i, j);
    }
  }

  lemma SwapNames(cd: seq<Entry>, i: nat, k: nat, n: Bytes)
    requires i < |cd| && k < |cd|
    ensures n in NamesOf(Swap(cd, i, k)) <==> n in NamesOf(cd)
  {
    var r := Swap(cd, i, k);
    if n in NamesOf(cd) {
      var j :| 0 <= j < |cd| && EntryName(cd[j]) == n;
      assert cd[j] in r;
      var j' :| 0 <= j' < |r| && r[j'] == cd[j];
      assert NamesOf(r)[j'] == n;
    }
    if n in NamesOf(r) {
      var j :| 0 <= j < |r| && EntryName(r[j]) == n;
      assert r[j] in cd;
      var j' :| 0 <= j' < |cd| && cd[j'] == r[j];
      assert NamesOf(cd)[j'] == n;
    }
  }

  /** Placing a name that is not yet in front adds it to the front exactly when the jar has it. */
  lemma PlaceFront(o: Order, name: Bytes)
    requires OrderOk(o) && name !in NamesOf(o.cd)[..o.count]
    ensures var o' := Place(o, name);
            && NamesOf(o'.cd)[..o'.count] == NamesOf(o.cd)[..o.count] + (if name in NamesOf(o.cd) then [name] else [])
            && forall n :: n in NamesOf(o'.cd) <==> n in NamesOf(o.cd)
  {
    var o' := Place(o, name);
    var i := Find(o.cd, name, o.count);
    if i < |o.cd| {
      assert NamesOf(o.cd)[i] == name;
      assert NamesOf(o'.cd)[..o.count] == NamesOf(o.cd)[..o.count];
      assert NamesOf(o'.cd)[..o'.count] == NamesOf(o.cd)[..o.count] + [name];
      forall n ensures n in NamesOf(o'.cd) <==> n in NamesOf(o.cd) {
        SwapNames(o.cd, i, o.count, n);
      }
    } else {
      assert forall j :: 0 <= j < o.count ==> NamesOf(o.cd)[..o.count][j] == NamesOf(o.cd)[j];
      assert name !in NamesOf(o.cd);
    }
  }

  /** Entry i, the first of the name behind the front, changes places with the entry that stands there. */
  ghost predicate Exchanged(o: Order, name: Bytes, i: nat, o': Order) {
    && o.count <= i < |o.cd| == |o'.cd| && o'.count == o.count + 1
    && o.cd[i].strs[NAME] == name && (forall j :: o.count <= j < i ==> o.cd[j].strs[NAME] != name)
    && o'.cd[o.count] == o.cd[i] && o'.cd[i] == o.cd[o.count]
    && forall j :: 0 <= j < |o.cd| && j != i && j != o.count ==> o'.cd[j] == o.cd[j]
  }

  /** Placing a name does that and moves no other entry, or there is no such entry behind the front. */
  lemma PlaceSwaps(o: Order, name: Bytes)
    requires OrderOk(o)
    ensures || (Place(o, name) == o && forall j :: o.count <= j < |o.cd| ==> o.cd[j].strs[NAME] != name)
            || exists i :: Exchanged(o, name, i, Place(o, name))
  {
    var i := Find(o.cd, name, o.count);
    if i < |o.cd| { assert Exchanged(o, name, i, Place(o, name)); }
  }

  /** The entries moved to the front are exactly the wanted ones, in log order. */
  lemma {:induction false} ReorderFront(cd: seq<Entry>, log: seq<Bytes>)
    ensures var o := Reorder(Order(cd, 0), log);
            && NamesOf(o.cd)[..o.count] == Wanted(log, NamesOf(cd))
            && forall n :: n in NamesOf(o.cd) <==> n in NamesOf(cd)
  {
    if log != [] {
      var init, name := log[..|log| - 1], log[|log| - 1];
      ReorderFront(cd, init);
      if name !in init {
        WantedMembers(init, NamesOf(cd), name);
        PlaceFront(Reorder(Order(cd, 0), init), name);
      }
    }
  }

  // ---------- members ----------

  /** The directory entry written out: no extra field, fixed date, new offset. */
  function CleanEntry(e: Entry, offset: nat): Entry {
    Record(e.nums[CDIR_TIME := 0][CDIR_DATE := DATE_2010][CDIR_EXTRA_LEN := 0][CDIR_OFFSET := offset],
           e.strs[EXTRA := []])
  }

  function CleanLocal(l: Local): Local {
    Record(l.nums[LOCAL_TIME := 0][LOCAL_DATE := DATE_2010][LOCAL_EXTRA_LEN := 0], l.strs[EXTRA := []])
  }

  /** A member as written: its entry, its local record, and where the input had it. */
  datatype Member = Member(entry: Entry, local: Local, oldOffset: nat)

  function LocalBytes(m: Member): Bytes { Pack(LOCAL_FILE, m.local) }

  function EntryBytes(m: Member): Bytes { Pack(CDIR_ENTRY, m.entry) }

  function Records(ms: seq<Member>): Bytes {
    if ms == [] then [] else Records(ms[..|ms| - 1]) + LocalBytes(ms[|ms| - 1])
  }

  function Directory(ms: seq<Member>): Bytes {
    if ms == [] then [] else Directory(ms[..|ms| - 1]) + EntryBytes(ms[|ms| - 1])
  }

  /** One round of the writing loop: directories are dropped; a missing or misnamed local header and
      an offset that does not fit 32 bits are errors. */
  function WriteEntry(jar: Bytes, start: nat, ms: seq<Member>, e: Entry): Option<seq<Member>> {
    match Read(jar, LOCAL_FILE, e.nums[CDIR_OFFSET])
    case None => None
    case Some(l) =>
      var offset := start + |Records(ms)|;
      if l.strs[NAME] != EntryName(e) then None
      else if IsDirName(EntryName(e)) then Some(ms)
      else if offset >= LIMIT32 then None
      else Some(ms + [Member(CleanEntry(e, offset), CleanLocal(l), e.nums[CDIR_OFFSET])])
  }

  function WriteEntries(jar: Bytes, start: nat, cd: seq<Entry>): Option<seq<Member>> {
    if cd == [] then Some([])
    else
      match WriteEntries(jar, start, cd[..|cd| - 1])
      case None => None
      case Some(ms) => WriteEntry(jar, start, ms, cd[|cd| - 1])
  }

  /** The number put in the first four bytes: where the last logged member ends. */
  function ReadAhead(start: nat, ms: seq<Member>, count: nat): nat {
    if 0 < count <= |ms| then start + |Records(ms[..count])| else 0
  }

  /** The names of the members that end inside the readahead area of the input. */
  function OutLog(readahead: nat, ms: seq<Member>): seq<Bytes> {
    if ms == [] then []
    else
      var m := ms[|ms| - 1];
      OutLog(readahead, ms[..|ms| - 1]) +
        if readahead >= m.oldOffset + |LocalBytes(m)| then [EntryName(m.entry)] else []
  }

  /** The end record as written: entry counts, directory size and directory position replaced. */
  function NewEnd(dirend: Record, entries: nat, cdirSize: nat, cdirOffset: nat): Record
    requires |dirend.nums| == 8
  {
    Record(dirend.nums[END_ENTRIES := entries][END_DISK_ENTRIES := entries][END_CDIR_SIZE := cdirSize]
             [END_CDIR_OFFSET := cdirOffset], dirend.strs)
  }

  const END_SIZE := 22

  function ReadDirEnd(jar: Bytes): (r: Option<Record>)
    ensures r.Some? ==> |r.value.nums| == 8 && r.value.strs == []
  {
    if |jar| < END_SIZE then None
    else
      match Read(jar, CDIR_END, |jar| - END_SIZE)
      case None => None
      case Some(d) => if d.nums[END_SIG] == END_SIGNATURE then Some(d) else None
  }

  /** The space left in front of the records: none, or directory + end record + 4 bytes as predicted
      from the input's directory size. */
  function Reserve(dirend: Record, cd: seq<Entry>): int
    requires |dirend.nums| == 8
  {
    FRONT + dirend.nums[END_CDIR_SIZE] + END_SIZE - Stripped(cd)
  }

  datatype Result = Result(jar: Bytes, log: seq<Bytes>)

  /** What is written for a jar that is being ordered. */
  function OrderedJar(dirend: Record, start: nat, ms: seq<Member>, count: nat): Option<Result>
    requires |dirend.nums| == 8
  {
    var end := NewEnd(dirend, |ms|, |Directory(ms)|, FRONT);
    var readahead := ReadAhead(start, ms, count);
    if !Fits(END_WIDTHS, end.nums) || readahead >= LIMIT32 then None
    else
      var endBytes := Pack(CDIR_END, end);
      var withRecords := Overwrite([], start, Records(ms));
      var withDirectory := Overwrite(withRecords, FRONT, Directory(ms) + endBytes);
      var withFront := Overwrite(withDirectory, 0, EncodeLE(4, readahead));
      Some(Result(Overwrite(withFront, start + |Records(ms)|, endBytes), []))
  }

  /** What is written for a jar that is being put back in plain form. */
  function PlainJar(dirend: Record, ms: seq<Member>, readahead: nat): Option<Result>
    requires |dirend.nums| == 8
  {
    var end := NewEnd(dirend, |ms|, |Directory(ms)|, |Records(ms)|);
    if !Fits(END_WIDTHS, end.nums) then None
    else Some(Result(Records(ms) + (Directory(ms) + Pack(CDIR_END, end)), OutLog(readahead, ms)))
  }

  /** optimizejar: with a log the jar is ordered, without one it is put back and the log recovered. */
  function Optimize(jar: Bytes, inlog: Option<seq<Bytes>>): Option<Result> {
    match ReadDirEnd(jar)
    case None => None
    case Some(dirend) =>
      match ReadDir(jar, dirend.nums[END_CDIR_OFFSET], dirend.nums[END_ENTRIES])
      case None => None
      case Some(cd) =>
        match inlog
        case Some(log) =>
          var o := Reorder(Order(cd, 0), log);
          var start := Reserve(dirend, cd);
          if start < 0 then None
          else (match WriteEntries(jar, start, o.cd)
                case None => None
                case Some(ms) => OrderedJar(dirend, start, ms, o.count))
        case None =>
          var readahead := if dirend.nums[END_CDIR_OFFSET] == FRONT && |jar| >= 4 then DecodeLE(jar[..4]) else 0;
          match WriteEntries(jar, 0, cd)
          case None => None
          case Some(ms) => PlainJar(dirend, ms, readahead)
  }

  /** Only a jar with its directory at byte 4 has a log to give back, and ordering gives none. */
  lemma NoLog(jar: Bytes, inlog: Option<seq<Bytes>>)
    requires Optimize(jar, inlog).Some? && ReadDirEnd(jar).Some?
    requires inlog.Some? || ReadDirEnd(jar).value.nums[END_CDIR_OFFSET] != 4
    ensures Optimize(jar, inlog).value.log == []
  {
    hide WriteEntries, Records, Directory, Fits, ReadDir;
    if inlog.None? {
      var cd := ReadDir(jar, ReadDirEnd(jar).value.nums[END_CDIR_OFFSET], ReadDirEnd(jar).value.nums[END_ENTRIES]).value;
      NothingLogged(WriteEntries(jar, 0, cd).value);
    }
  }

  lemma {:induction false} NothingLogged(ms: seq<Member>)
    ensures OutLog(0, ms) == []
  {
    if ms != [] {
      NothingLogged(ms[..|ms| - 1]);
      FixedSizes();
      assert |LocalBytes(ms[|ms| - 1])| >= SizeOf(LOCAL_WIDTHS);
    }
  }

  // ---------- the space in front is exact ----------

  /** Where the cursor stands after n entries. */
  function DirEnd(jar: Bytes, pos: nat, n: nat): nat
    decreases n
  {
    if n == 0 then pos
    else
      match Read(jar, CDIR_ENTRY, pos)
      case None => pos
      case Some(e) => DirEnd(jar, ReadEnd(CDIR_ENTRY, e, pos), n - 1)
  }

  lemma {:induction false} DirEndBeyond(jar: Bytes, pos: nat, n: nat)
    ensures DirEnd(jar, pos, n) >= pos
    decreases n
  {
    if n > 0 && Read(jar, CDIR_ENTRY, pos).Some? {
      DirEndBeyond(jar, ReadEnd(CDIR_ENTRY, Read(jar, CDIR_ENTRY, pos).value, pos), n - 1);
    }
  }

  /** A directory that lies inside the file is made of complete entries. */
  lemma {:induction false} DirConsistent(jar: Bytes, pos: nat, n: nat)
    requires ReadDir(jar, pos, n).Some? && DirEnd(jar, pos, n) <= |jar|
    ensures forall e :: e in ReadDir(jar, pos, n).value ==> Consistent(CDIR_ENTRY, e)
    decreases n
  {
    if n > 0 {
      var e := Read(jar, CDIR_ENTRY, pos).value;
      var next := ReadEnd(CDIR_ENTRY, e, pos);
      DirEndBeyond(jar, next, n - 1);
      ReadInside(jar, CDIR_ENTRY, pos);
      DirConsistent(jar, next, n - 1);
    }
  }

  /** Bytes an entry takes once its extra field is gone. */
  function CleanSize(e: Entry): nat {
    if IsDirName(EntryName(e)) then 0 else SizeOf(CDIR_WIDTHS) + |e.strs[NAME]| + |e.strs[DATA]|
  }

  function CleanSizes(cd: seq<Entry>): nat {
    if cd == [] then 0 else CleanSize(cd[0]) + CleanSizes(cd[1..])
  }

  lemma PackSize(e: Entry)
    ensures |Pack(CDIR_ENTRY, e)| == SizeOf(CDIR_WIDTHS) + |e.strs[NAME]| + |e.strs[EXTRA]| + |e.strs[DATA]|
  {
    ConcatThree(e.strs[NAME], e.strs[EXTRA], e.strs[DATA]);
    assert e.strs == [e.strs[NAME], e.strs[EXTRA], e.strs[DATA]];
  }

  lemma {:induction false} StrippedSize(cd: seq<Entry>)
    requires forall e :: e in cd ==> Consistent(CDIR_ENTRY, e)
    ensures EntriesSize(cd) == Stripped(cd) + CleanSizes(cd)
  {
    if cd != [] {
      PackSize(cd[0]);
      assert cd[0] in cd && Consistent(CDIR_ENTRY, cd[0]);
      StrippedSize(cd[1..]);
    }
  }

  lemma {:induction false} CleanSizesAppend(a: seq<Entry>, b: seq<Entry>)
    ensures CleanSizes(a + b) == CleanSizes(a) + CleanSizes(b)
  {
    if a == [] {
      assert a + b == b;
    } else {
      assert (a + b)[1..] == a[1..] + b;
      CleanSizesAppend(a[1..], b);
    }
  }

  lemma RemoveFromMultiset<T>(s: seq<T>, j: nat)
    requires j < |s|
    ensures multiset(s[..j] + s[j + 1..]) == multiset(s) - multiset{s[j]}
  {
    assert s == s[..j] + [s[j]] + s[j + 1..];
  }

  lemma Partner<T>(a: seq<T>, b: seq<T>) returns (j: nat)
    requires multiset(a) == multiset(b) && a != []
    ensures j < |b| && b[j] == a[0] && multiset(a[1..]) == multiset(b[..j] + b[j + 1..])
  {
    assert a[0] in multiset(a);
    assert a[0] in multiset(b);
    j :| 0 <= j < |b| && b[j] == a[0];
    RemoveFromMultiset(a, 0);
    RemoveFromMultiset(b, j);
    assert a[..0] + a[1..] == a[1..];
  }

  /** Reordering does not change the total. */
  lemma {:induction false} CleanSizesPermuted(a: seq<Entry>, b: seq<Entry>)
    requires multiset(a) == multiset(b)
    ensures CleanSizes(a) == CleanSizes(b)
  {
    if a == [] {
      assert |multiset(b)| == 0;
    } else {
      var j := Partner(a, b);
      var rest := b[..j] + b[j + 1..];
      assert b == b[..j] + ([b[j]] + b[j + 1..]);
      CleanSizesPermuted(a[1..], rest);
      CleanSizesAppend(b[..j], b[j + 1..]);
      CleanSizesAppend(b[..j], [b[j]] + b[j + 1..]);
    }
  }

  lemma {:induction false} DirectorySize(jar: Bytes, start: nat, cd: seq<Entry>)
    requires WriteEntries(jar, start, cd).Some?
    ensures |Directory(WriteEntries(jar, start, cd).value)| == CleanSizes(cd)
  {
    hide WriteEntry, CleanSize;
    if cd != [] {
      var n := |cd| - 1;
      DirectorySize(jar, start, cd[..n]);
      assert cd == cd[..n] + [cd[n]];
      CleanSizesAppend(cd[..n], [cd[n]]);
      assert CleanSizes([cd[n]]) == CleanSize(cd[n]);
      WriteEntrySize(jar, start, WriteEntries(jar, start, cd[..n]).value, cd[n]);
    }
  }

  lemma WriteEntrySize(jar: Bytes, start: nat, ms: seq<Member>, e: Entry)
    requires WriteEntry(jar, start, ms, e).Some?
    ensures |Directory(WriteEntry(jar, start, ms, e).value)| == |Directory(ms)| + CleanSize(e)
  {
    hide Read, Pack;
    var ms' := WriteEntry(jar, start, ms, e).value;
    if !IsDirName(EntryName(e)) {
      assert ms'[..|ms|] == ms;
      PackSize(ms'[|ms|].entry);
    }
  }

  /** The size reserved in front before anything is written is off by exactly as much as the
      input's directory size field is; it is right if and only if that field is. */
  lemma ReserveExact(jar: Bytes, dirend: Record, log: seq<Bytes>)
    requires ReadDirEnd(jar) == Some(dirend)
    requires var pos, n := dirend.nums[END_CDIR_OFFSET], dirend.nums[END_ENTRIES];
             && ReadDir(jar, pos, n).Some? && DirEnd(jar, pos, n) <= |jar|
    requires var cd := ReadDir(jar, dirend.nums[END_CDIR_OFFSET], dirend.nums[END_ENTRIES]).value;
             && Reserve(dirend, cd) >= 0
             && WriteEntries(jar, Reserve(dirend, cd), Reorder(Order(cd, 0), log).cd).Some?
    ensures var cd := ReadDir(jar, dirend.nums[END_CDIR_OFFSET], dirend.nums[END_ENTRIES]).value;
            var ms := WriteEntries(jar, Reserve(dirend, cd), Reorder(Order(cd, 0), log).cd).value;
            && Reserve(dirend, cd) - (4 + |Directory(ms)| + 22) == dirend.nums[END_CDIR_SIZE] - EntriesSize(cd)
            && (Reserve(dirend, cd) == 4 + |Directory(ms)| + 22 <==> dirend.nums[END_CDIR_SIZE] == EntriesSize(cd))
  {
    var pos, n := dirend.nums[END_CDIR_OFFSET], dirend.nums[END_ENTRIES];
    var cd := ReadDir(jar, pos, n).value;
    var o := Reorder(Order(cd, 0), log);
    DirConsistent(jar, pos, n);
    StrippedSize(cd);
    CleanSizesPermuted(cd, o.cd);
    DirectorySize(jar, Reserve(dirend, cd), o.cd);
  }

  // ---------- what was written ----------

  /** Members laid out one after the other from start, each entry pointing at its record. */
  ghost predicate LaidOut(start: nat, ms: seq<Member>) {
    forall i :: 0 <= i < |ms| ==> MemberOk(start, ms, i)
  }

  ghost predicate MemberOk(start: nat, ms: seq<Member>, i: nat)
    requires i < |ms|
  {
    ms[i].entry.nums[CDIR_OFFSET] == start + |Records(ms[..i])| < LIMIT32 && Clean(ms[i])
  }

  /** A file whose two headers agree on its name and carry no extra field. */
  ghost predicate Clean(m: Member) {
    && Consistent(CDIR_ENTRY, m.entry) && Consistent(LOCAL_FILE, m.local)
    && m.local.strs[NAME] == EntryName(m.entry) && !IsDirName(EntryName(m.entry))
    && CleanLocal(m.local) == m.local
  }

  /** Every local record a directory points at is complete. */
  predicate LocalsInside(jar: Bytes, cd: seq<Entry>) {
    forall e :: e in cd ==> LocalInside(jar, e)
  }

  predicate LocalInside(jar: Bytes, e: Entry) {
    match Read(jar, LOCAL_FILE, e.nums[CDIR_OFFSET])
    case None => true
    case Some(l) => ReadEnd(LOCAL_FILE, l, e.nums[CDIR_OFFSET]) <= |jar|
  }

  lemma CleanConsistent(e: Entry, l: Local, offset: nat)
    requires Consistent(CDIR_ENTRY, e) && Consistent(LOCAL_FILE, l) && offset < LIMIT32
    ensures Consistent(CDIR_ENTRY, CleanEntry(e, offset)) && Consistent(LOCAL_FILE, CleanLocal(l))
    ensures CleanLocal(CleanLocal(l)) == CleanLocal(l)
  {
    PowSizes();
    var e', l' := CleanEntry(e, offset), CleanLocal(l);
    assert l'.strs[EXTRA := []] == l'.strs;
    assert l'.nums[LOCAL_TIME := 0][LOCAL_DATE := DATE_2010][LOCAL_EXTRA_LEN := 0] == l'.nums;
    assert CDIR_ENTRY.lengths == [CDIR_NAME_LEN, CDIR_EXTRA_LEN, CDIR_COMMENT_LEN];
    forall i | 0 <= i < 17 ensures e'.nums[i] < Pow256(CDIR_WIDTHS[i]) {}
    forall i | 0 <= i < 11 ensures l'.nums[i] < Pow256(LOCAL_WIDTHS[i]) {}
  }

  lemma {:induction false} WrittenLaidOut(jar: Bytes, start: nat, cd: seq<Entry>)
    requires WriteEntries(jar, start, cd).Some? && LocalsInside(jar, cd)
    requires forall e :: e in cd ==> Consistent(CDIR_ENTRY, e)
    ensures LaidOut(start, WriteEntries(jar, start, cd).value)
  {
    hide WriteEntry, Consistent, LaidOut;
    if cd == [] {
      NothingLaidOut(start);
    } else {
      var n := |cd| - 1;
      assert cd[n] in cd;
      LocalsInsidePrefix(jar, cd, n);
      WrittenLaidOut(jar, start, cd[..n]);
      WriteEntryLaidOut(jar, start, WriteEntries(jar, start, cd[..n]).value, cd[n]);
    }
  }

  lemma NothingLaidOut(start: nat)
    ensures LaidOut(start, [])
  {
  }

  lemma LocalsInsidePrefix(jar: Bytes, cd: seq<Entry>, n: nat)
    requires n < |cd| && LocalsInside(jar, cd)
    ensures LocalsInside(jar, cd[..n]) && LocalInside(jar, cd[n])
  {
    assert cd[n] in cd;
  }

  lemma WriteEntryLaidOut(jar: Bytes, start: nat, ms: seq<Member>, e: Entry)
    requires WriteEntry(jar, start, ms, e).Some? && LaidOut(start, ms) && Consistent(CDIR_ENTRY, e) && LocalInside(jar, e)
    ensures LaidOut(start, WriteEntry(jar, start, ms, e).value)
  {
    hide Consistent, CleanEntry, CleanLocal;
    var ms' := WriteEntry(jar, start, ms, e).value;
    if !IsDirName(EntryName(e)) {
      ReadInside(jar, LOCAL_FILE, e.nums[CDIR_OFFSET]);
      CleanMember(e, Read(jar, LOCAL_FILE, e.nums[CDIR_OFFSET]).value, start + |Records(ms)|);
      forall i | 0 <= i < |ms'| ensures MemberOk(start, ms', i) {
        assert ms'[..i] == ms[..i];
        if i < |ms| { assert MemberOk(start, ms, i); }
      }
    }
  }

  lemma CleanMember(e: Entry, l: Local, offset: nat)
    requires Consistent(CDIR_ENTRY, e) && Consistent(LOCAL_FILE, l) && offset < LIMIT32
    requires l.strs[NAME] == EntryName(e) && !IsDirName(EntryName(e))
    ensures Clean(Member(CleanEntry(e, offset), CleanLocal(l), e.nums[CDIR_OFFSET]))
    ensures CleanEntry(e, offset).nums[CDIR_OFFSET] == offset
  {
    hide Consistent;
    CleanConsistent(e, l, offset);
  }

  /** Names of the files, directories left out. */
  function FileNames(names: seq<Bytes>): (fs: seq<Bytes>)
    ensures |fs| <= |names|
  {
    if names == [] then []
    else FileNames(names[..|names| - 1]) + if IsDirName(names[|names| - 1]) then [] else [names[|names| - 1]]
  }

  function MemberNames(ms: seq<Member>): (ns: seq<Bytes>)
    ensures |ns| == |ms|
  {
    seq(|ms|, i requires 0 <= i < |ms| => EntryName(ms[i].entry))
  }

  lemma WriteEntryNames(jar: Bytes, start: nat, ms: seq<Member>, e: Entry)
    requires WriteEntry(jar, start, ms, e).Some?
    ensures MemberNames(WriteEntry(jar, start, ms, e).value) ==
            MemberNames(ms) + if IsDirName(EntryName(e)) then [] else [EntryName(e)]
  {
  }

  lemma {:induction false} WrittenNames(jar: Bytes, start: nat, cd: seq<Entry>)
    requires WriteEntries(jar, start, cd).Some?
    ensures MemberNames(WriteEntries(jar, start, cd).value) == FileNames(NamesOf(cd))
  {
    hide Read;
    if cd != [] {
      var n := |cd| - 1;
      WrittenNames(jar, start, cd[..n]);
      assert NamesOf(cd)[..n] == NamesOf(cd[..n]);
      WriteEntryNames(jar, start, WriteEntries(jar, start, cd[..n]).value, cd[n]);
    }
  }

  lemma {:induction false} FileNamesFront(names: seq<Bytes>, k: nat)
    requires k <= |names| && forall i :: 0 <= i < k ==> !IsDirName(names[i])
    ensures |FileNames(names)| >= k && FileNames(names)[..k] == names[..k]
  {
    if k < |names| {
      var n := |names| - 1;
      FileNamesFront(names[..n], k);
      assert names[..n][..k] == names[..k];
    } else if k > 0 {
      var n := k - 1;
      FileNamesFront(names[..n], n);
      assert names[..n][..n] == names[..n];
      assert names[..k] == names;
      assert names == names[..n] + [names[n]];
    }
  }

  lemma {:induction false} RecordsPrefix(ms: seq<Member>, i: nat)
    requires i <= |ms|
    ensures Records(ms[..i]) <= Records(ms) && Directory(ms[..i]) <= Directory(ms)
  {
    if i < |ms| {
      RecordsPrefix(ms[..|ms| - 1], i);
      assert ms[..|ms| - 1][..i] == ms[..i];
    } else {
      assert ms[..i] == ms;
    }
  }

  /** Where member i's record and entry are inside the two concatenations. */
  lemma MemberAt(ms: seq<Member>, i: nat)
    requires i < |ms|
    ensures var r, d := |Records(ms[..i])|, |Directory(ms[..i])|;
            && |Records(ms[..i + 1])| == r + |LocalBytes(ms[i])| <= |Records(ms)|
            && Records(ms)[r..r + |LocalBytes(ms[i])|] == LocalBytes(ms[i])
            && |Directory(ms[..i + 1])| == d + |EntryBytes(ms[i])| <= |Directory(ms)|
            && Directory(ms)[d..d + |EntryBytes(ms[i])|] == EntryBytes(ms[i])
  {
    hide LocalBytes, EntryBytes;
    assert ms[..i + 1][..i] == ms[..i];
    RecordsPrefix(ms, i + 1);
    InPrefix(Records(ms[..i]), LocalBytes(ms[i]), Records(ms));
    InPrefix(Directory(ms[..i]), EntryBytes(ms[i]), Directory(ms));
  }

  lemma InPrefix(a: Bytes, b: Bytes, whole: Bytes)
    requires a + b <= whole
    ensures whole[|a|..|a| + |b|] == b
  {
    assert whole[..|a + b|] == a + b;
    assert whole[|a|..|a| + |b|] == whole[..|a + b|][|a|..];
  }

  ghost predicate Contains(data: Bytes, pos: nat, bs: Bytes) {
    pos + |bs| <= |data| && data[pos..pos + |bs|] == bs
  }

  lemma ContainsPart(data: Bytes, pos: nat, bs: Bytes, i: nat, part: Bytes)
    requires Contains(data, pos, bs) && Contains(bs, i, part)
    ensures Contains(data, pos + i, part)
  {
    SliceOfSlice(data, pos, |bs|, i, i + |part|);
  }

  lemma LocalReadable(out: Bytes, m: Member, pos: nat)
    requires Clean(m) && Contains(out, pos, LocalBytes(m))
    ensures Read(out, LOCAL_FILE, pos) == Some(m.local)
  {
    ReadPacked(out, LOCAL_FILE, m.local, pos);
  }

  lemma EntryReadable(out: Bytes, m: Member, pos: nat)
    requires Clean(m) && Contains(out, pos, EntryBytes(m))
    ensures Read(out, CDIR_ENTRY, pos) == Some(m.entry) && ReadEnd(CDIR_ENTRY, m.entry, pos) == pos + |EntryBytes(m)|
  {
    ReadPacked(out, CDIR_ENTRY, m.entry, pos);
  }

  lemma MemberContained(out: Bytes, rpos: nat, dpos: nat, ms: seq<Member>, i: nat)
    requires i < |ms|
    ensures Contains(out, rpos, Records(ms)) ==> Contains(out, rpos + |Records(ms[..i])|, LocalBytes(ms[i]))
    ensures Contains(out, dpos, Directory(ms)) ==> Contains(out, dpos + |Directory(ms[..i])|, EntryBytes(ms[i]))
  {
    hide LocalBytes, EntryBytes, Contains;
    MemberAt(ms, i);
    if Contains(out, rpos, Records(ms)) {
      MemberAtContained(ms, i);
      ContainsPart(out, rpos, Records(ms), |Records(ms[..i])|, LocalBytes(ms[i]));
    }
    if Contains(out, dpos, Directory(ms)) {
      MemberAtContained(ms, i);
      ContainsPart(out, dpos, Directory(ms), |Directory(ms[..i])|, EntryBytes(ms[i]));
    }
  }

  lemma MemberAtContained(ms: seq<Member>, i: nat)
    requires i < |ms|
    ensures Contains(Records(ms), |Records(ms[..i])|, LocalBytes(ms[i]))
    ensures Contains(Directory(ms), |Directory(ms[..i])|, EntryBytes(ms[i]))
  {
    hide LocalBytes, EntryBytes;
    MemberAt(ms, i);
  }

  /** A reader of the output finds each member's record where its directory entry points. */
  lemma MemberReadable(out: Bytes, start: nat, ms: seq<Member>, i: nat)
    requires i < |ms| && LaidOut(start, ms) && Contains(out, start, Records(ms))
    ensures Read(out, LOCAL_FILE, ms[i].entry.nums[CDIR_OFFSET]) == Some(ms[i].local)
  {
    hide Clean, Read, Records, LocalBytes, Contains;
    assert MemberOk(start, ms, i);
    var at := ms[i].entry.nums[CDIR_OFFSET];
    LocalContained(out, start, ms, i, at);
    LocalReadable(out, ms[i], at);
  }

  lemma LocalContained(out: Bytes, start: nat, ms: seq<Member>, i: nat, at: nat)
    requires i < |ms| && Contains(out, start, Records(ms)) && at == start + |Records(ms[..i])|
    ensures Contains(out, at, LocalBytes(ms[i]))
  {
    hide Contains, Records, LocalBytes;
    MemberContained(out, start, 0, ms, i);
  }

  function EntriesOf(ms: seq<Member>): (es: seq<Entry>)
    ensures |es| == |ms|
  {
    seq(|ms|, i requires 0 <= i < |ms| => ms[i].entry)
  }

  lemma ReadDirNone(jar: Bytes, pos: nat)
    ensures ReadDir(jar, pos, 0) == Some([]) && DirEnd(jar, pos, 0) == pos
  {
  }

  lemma ReadDirMore(jar: Bytes, pos: nat, n: nat, e: Entry)
    requires n > 0 && Read(jar, CDIR_ENTRY, pos) == Some(e)
    ensures var next := ReadEnd(CDIR_ENTRY, e, pos);
            && DirEnd(jar, pos, n) == DirEnd(jar, next, n - 1)
            && (ReadDir(jar, next, n - 1).Some? ==> ReadDir(jar, pos, n) == Some([e] + ReadDir(jar, next, n - 1).value))
  {
  }

  /** And it reads the directory back, entry by entry. */
  lemma {:induction false} DirectoryReadable(out: Bytes, start: nat, pos: nat, ms: seq<Member>, i: nat)
    requires i <= |ms| && LaidOut(start, ms) && Contains(out, pos, Directory(ms))
    ensures ReadDir(out, pos + |Directory(ms[..i])|, |ms| - i) == Some(EntriesOf(ms)[i..])
    ensures DirEnd(out, pos + |Directory(ms[..i])|, |ms| - i) == pos + |Directory(ms)|
    decreases |ms| - i
  {
    hide Clean, EntryBytes, Read, ReadEnd, Directory, Contains, ReadDir, DirEnd;
    ReadDirNone(out, pos + |Directory(ms)|);
    if i < |ms| {
      assert MemberOk(start, ms, i);
      MemberAt(ms, i);
      var at := pos + |Directory(ms[..i])|;
      MemberContained(out, 0, pos, ms, i);
      EntryReadable(out, ms[i], at);
      DirectoryReadable(out, start, pos, ms, i + 1);
      ReadDirMore(out, at, |ms| - i, ms[i].entry);
      assert EntriesOf(ms)[i..] == [ms[i].entry] + EntriesOf(ms)[i + 1..];
    } else {
      assert ms[..i] == ms && EntriesOf(ms)[i..] == [];
    }
  }

  // ---------- an ordered jar ----------

  /** A jar as tools write it: the directory lies inside the file, its size field is right, and the
      records it points at are complete. */
  ghost predicate WellFormed(jar: Bytes) {
    && ReadDirEnd(jar).Some?
    && var d := ReadDirEnd(jar).value;
    && ReadDir(jar, d.nums[END_CDIR_OFFSET], d.nums[END_ENTRIES]).Some?
    && DirEnd(jar, d.nums[END_CDIR_OFFSET], d.nums[END_ENTRIES]) <= |jar|
    && var cd := ReadDir(jar, d.nums[END_CDIR_OFFSET], d.nums[END_ENTRIES]).value;
    && d.nums[END_CDIR_SIZE] == EntriesSize(cd)
    && LocalsInside(jar, cd)
  }

  function Listed(jar: Bytes): seq<Entry>
    requires WellFormed(jar)
  {
    var d := ReadDirEnd(jar).value;
    ReadDir(jar, d.nums[END_CDIR_OFFSET], d.nums[END_ENTRIES]).value
  }

  /** The directory as the log reorders it. */
  function Ordered(jar: Bytes, log: seq<Bytes>): Order
    requires WellFormed(jar)
  {
    Reorder(Order(Listed(jar), 0), log)
  }

  /** The parts of an ordered jar in file order. */
  function FrontLayout(readahead: nat, ms: seq<Member>, end: Record): Bytes
    requires |end.nums| == 8
  {
    EncodeLE(4, readahead) + (Directory(ms) + Pack(CDIR_END, end)) + Records(ms) + Pack(CDIR_END, end)
  }

  lemma OverwriteKeeps(data: Bytes, pos: nat, bs: Bytes, at: nat, part: Bytes)
    requires Contains(data, at, part) && (at + |part| <= pos || pos + |bs| <= at)
    ensures Contains(Overwrite(data, pos, bs), at, part)
  {
    var r := Overwrite(data, pos, bs);
    forall i | 0 <= i < |part| ensures r[at..at + |part|][i] == part[i] {
      assert data[at..at + |part|][i] == data[at + i];
    }
  }

  lemma TwoWrites(dir: Bytes, records: Bytes)
    requires dir != []
    ensures var start := 4 + |dir|;
            var w := Overwrite(Overwrite([], start, records), 4, dir);
            && |w| == start + |records| && Contains(w, 4, dir) && Contains(w, start, records)
  {
    hide Overwrite;
    var start := 4 + |dir|;
    var w1 := Overwrite([], start, records);
    var w2 := Overwrite(w1, 4, dir);
    if records == [] {
      assert w2[start..start] == [];
    } else {
      OverwriteKeeps(w1, 4, dir, start, records);
    }
  }

  /** Written in four pieces out of order, the parts fill the file without a gap or an overlap. */
  lemma FourWrites(front: Bytes, dir: Bytes, records: Bytes, end: Bytes)
    requires |front| == 4 && end != [] && dir != []
    ensures var start := 4 + |dir|;
            var w := Overwrite(Overwrite(Overwrite([], start, records), 4, dir), 0, front);
            Overwrite(w, start + |records|, end) == front + dir + records + end
  {
    hide Overwrite;
    var start := 4 + |dir|;
    TwoWrites(dir, records);
    var w2 := Overwrite(Overwrite([], start, records), 4, dir);
    OverwriteKeeps(w2, 0, front, 4, dir);
    OverwriteKeeps(w2, 0, front, start, records);
    var w3 := Overwrite(w2, 0, front);
    assert Contains(w3, 0, front);
    OverwriteKeeps(w3, start + |records|, end, 0, front);
    OverwriteKeeps(w3, start + |records|, end, 4, dir);
    OverwriteKeeps(w3, start + |records|, end, start, records);
    FourParts(Overwrite(w3, start + |records|, end), front, dir, records, end);
  }

  lemma FourParts(w: Bytes, a: Bytes, b: Bytes, c: Bytes, d: Bytes)
    requires Contains(w, 0, a) && Contains(w, |a|, b) && Contains(w, |a| + |b|, c) && Contains(w, |a| + |b| + |c|, d)
    requires |w| == |a| + |b| + |c| + |d|
    ensures w == a + b + c + d
  {
    assert w == w[..|a|] + w[|a|..|a| + |b|] + w[|a| + |b|..|a| + |b| + |c|] + w[|a| + |b| + |c|..];
    assert w[0..0 + |a|] == w[..|a|];
    assert w[|a| + |b| + |c|..|a| + |b| + |c| + |d|] == w[|a| + |b| + |c|..];
  }

  lemma FrontParts(readahead: nat, ms: seq<Member>, end: Record)
    requires |end.nums| == 8 && end.strs == []
    ensures var out := FrontLayout(readahead, ms, end);
            && |out| == 4 + |Directory(ms)| + 22 + |Records(ms)| + 22
            && out[..4] == EncodeLE(4, readahead)
            && Contains(out, FRONT, Directory(ms))
            && Contains(out, 4 + |Directory(ms)| + 22, Records(ms))
            && Contains(out, |out| - END_SIZE, Pack(CDIR_END, end))
  {
    hide Pack, EncodeLE, Records, Directory;
    EndSize(end);
    PartsContained(EncodeLE(4, readahead), Directory(ms), Pack(CDIR_END, end), Records(ms));
  }

  lemma EndSize(end: Record)
    requires |end.nums| == 8 && end.strs == []
    ensures |Pack(CDIR_END, end)| == 22
  {
    FixedSizes();
  }

  lemma PartsContained(a: Bytes, b: Bytes, c: Bytes, d: Bytes)
    ensures var w := a + (b + c) + d + c;
            && w[..|a|] == a && Contains(w, |a|, b) && Contains(w, |a| + |b| + |c|, d) && Contains(w, |w| - |c|, c)
  {
  }

  /** An ordering run on a well-formed jar that does not fail, taken apart. */
  lemma OrderedParts(jar: Bytes, log: seq<Bytes>) returns (ms: seq<Member>, end: Record, start: nat, count: nat)
    requires WellFormed(jar) && Optimize(jar, Some(log)).Some?
    ensures WriteEntries(jar, start, Ordered(jar, log).cd) == Some(ms) && count == Ordered(jar, log).count
    ensures start == 4 + |Directory(ms)| + 22 && LaidOut(start, ms)
    ensures |end.nums| == 8 && end == NewEnd(ReadDirEnd(jar).value, |ms|, |Directory(ms)|, FRONT) && Fits(END_WIDTHS, end.nums)
    ensures ReadAhead(start, ms, count) < LIMIT32
    ensures Optimize(jar, Some(log)).value.jar == FrontLayout(ReadAhead(start, ms, count), ms, end)
    ensures MemberNames(ms) == FileNames(NamesOf(Ordered(jar, log).cd))
  {
    hide OrderedJar, WriteEntries, Reorder, LaidOut;
    var d := ReadDirEnd(jar).value;
    var cd := Listed(jar);
    var o := Reorder(Order(cd, 0), log);
    start := Reserve(d, cd);
    ms := WriteEntries(jar, start, o.cd).value;
    count := o.count;
    end := NewEnd(d, |ms|, |Directory(ms)|, FRONT);
    ReserveExact(jar, d, log);
    DirConsistent(jar, d.nums[END_CDIR_OFFSET], d.nums[END_ENTRIES]);
    forall e | e in o.cd ensures e in cd {
      assert e in multiset(o.cd);
    }
    WrittenLaidOut(jar, start, o.cd);
    WrittenNames(jar, start, o.cd);
    OrderedBytes(d, start, ms, count);
  }

  lemma OrderedBytes(dirend: Record, start: nat, ms: seq<Member>, count: nat)
    requires |dirend.nums| == 8 && dirend.strs == [] && start == 4 + |Directory(ms)| + 22
    requires OrderedJar(dirend, start, ms, count).Some?
    ensures var end := NewEnd(dirend, |ms|, |Directory(ms)|, FRONT);
            && Fits(END_WIDTHS, end.nums) && ReadAhead(start, ms, count) < LIMIT32
            && OrderedJar(dirend, start, ms, count).value.jar == FrontLayout(ReadAhead(start, ms, count), ms, end)
  {
    hide Directory, Records, ReadAhead, Pack, Fits;
    FixedSizes();
    var end := NewEnd(dirend, |ms|, |Directory(ms)|, FRONT);
    FourWrites(EncodeLE(4, ReadAhead(start, ms, count)), Directory(ms) + Pack(CDIR_END, end), Records(ms), Pack(CDIR_END, end));
  }

  /** What a reader finds in a jar: an end record pointing at the directory, the directory, and where each entry points a
      record of the same name. */
  ghost predicate Serves(out: Bytes, pos: nat, ms: seq<Member>, end: Record) {
    && |out| >= END_SIZE && |end.nums| == 8
    && ReadDirEnd(out) == Some(end)
    && end.nums[END_CDIR_OFFSET] == pos && end.nums[END_ENTRIES] == |ms| && end.nums[END_CDIR_SIZE] == |Directory(ms)|
    && ReadDir(out, pos, |ms|) == Some(EntriesOf(ms)) && DirEnd(out, pos, |ms|) == pos + |Directory(ms)| <= |out|
    && forall i :: 0 <= i < |ms| ==> PointsAt(out, ms[i])
  }

  /** An ordered jar: behind the readahead word the directory is at byte 4. */
  ghost predicate Readable(out: Bytes, readahead: nat, ms: seq<Member>, end: Record) {
    Serves(out, FRONT, ms, end) && DecodeLE(out[..4]) == readahead
  }

  ghost predicate PointsAt(out: Bytes, m: Member) {
    Read(out, LOCAL_FILE, m.entry.nums[CDIR_OFFSET]) == Some(m.local)
  }

  /** A file holding the records, the directory and the end record where they belong. */
  lemma PartsServed(out: Bytes, start: nat, pos: nat, ms: seq<Member>, end: Record)
    requires |out| >= END_SIZE && |end.nums| == 8 && end.strs == [] && Fits(END_WIDTHS, end.nums)
    requires end.nums[END_SIG] == END_SIGNATURE && Contains(out, |out| - END_SIZE, Pack(CDIR_END, end))
    requires end.nums[END_CDIR_OFFSET] == pos && end.nums[END_ENTRIES] == |ms| && end.nums[END_CDIR_SIZE] == |Directory(ms)|
    requires LaidOut(start, ms) && Contains(out, start, Records(ms)) && Contains(out, pos, Directory(ms))
    ensures Serves(out, pos, ms, end)
  {
    hide LaidOut, Read, Fits;
    EndReadable(out, end);
    DirectoryReadable(out, start, pos, ms, 0);
    assert ms[..0] == [] && EntriesOf(ms)[0..] == EntriesOf(ms);
    forall i | 0 <= i < |ms| ensures PointsAt(out, ms[i]) {
      MemberReadable(out, start, ms, i);
    }
  }

  lemma FrontReadable(readahead: nat, start: nat, ms: seq<Member>, end: Record)
    requires |end.nums| == 8 && end.strs == [] && Fits(END_WIDTHS, end.nums) && end.nums[END_SIG] == END_SIGNATURE
    requires end.nums[END_CDIR_OFFSET] == FRONT && end.nums[END_ENTRIES] == |ms| && end.nums[END_CDIR_SIZE] == |Directory(ms)|
    requires LaidOut(start, ms) && start == 4 + |Directory(ms)| + 22 && readahead < LIMIT32
    ensures Readable(FrontLayout(readahead, ms, end), readahead, ms, end)
  {
    hide FrontLayout, LaidOut, Serves, Fits;
    FrontParts(readahead, ms, end);
    PartsServed(FrontLayout(readahead, ms, end), start, FRONT, ms, end);
    PowSizes();
    DecodeEncode(4, readahead);
  }

  lemma OrderedJarReadable(jar: Bytes, log: seq<Bytes>)
      returns (ms: seq<Member>, end: Record, start: nat, count: nat)
    requires WellFormed(jar) && Optimize(jar, Some(log)).Some?
    ensures |end.nums| == 8 && ReadDirEnd(jar).Some? && SameEnd(ReadDirEnd(jar).value, end)
    ensures var out := Optimize(jar, Some(log)).value.jar;
            && out == FrontLayout(ReadAhead(start, ms, count), ms, end)
            && Readable(out, ReadAhead(start, ms, count), ms, end)
    ensures LaidOut(start, ms) && start == 4 + |Directory(ms)| + 22 && Fits(END_WIDTHS, end.nums)
    ensures MemberNames(ms) == FileNames(NamesOf(Ordered(jar, log).cd)) && count == Ordered(jar, log).count
    ensures WriteEntries(jar, start, Ordered(jar, log).cd) == Some(ms)
  {
    hide Optimize, WellFormed, LaidOut, Ordered, Readable, Fits;
    ms, end, start, count := OrderedParts(jar, log);
    ReadDirEndShape(jar);
    FrontReadable(ReadAhead(start, ms, count), start, ms, end);
  }

  lemma EndShape(out: Bytes, end: Record)
    requires ReadDirEnd(out) == Some(end)
    ensures |end.nums| == 8 && end.strs == [] && end.nums[END_SIG] == END_SIGNATURE
  {
  }

  lemma ReadDirEndShape(jar: Bytes)
    requires WellFormed(jar)
    ensures ReadDirEnd(jar).Some? && ReadDirEnd(jar).value.nums[END_SIG] == END_SIGNATURE
  {
  }

  lemma EndReadable(out: Bytes, end: Record)
    requires |out| >= END_SIZE && |end.nums| == 8 && end.strs == [] && Fits(END_WIDTHS, end.nums)
    requires end.nums[END_SIG] == END_SIGNATURE && Contains(out, |out| - END_SIZE, Pack(CDIR_END, end))
    ensures ReadDirEnd(out) == Some(end)
  {
    hide Read, Pack, Fits;
    ReadPacked(out, CDIR_END, end, |out| - END_SIZE);
  }

  // ---------- and back ----------

  /** The members as the second run writes them: same records, offsets counted from 0. */
  function Again(ms: seq<Member>): (r: seq<Member>)
    ensures |r| == |ms|
  {
    if ms == [] then []
    else
      var init, m := ms[..|ms| - 1], ms[|ms| - 1];
      Again(init) + [Member(CleanEntry(m.entry, |Records(init)|), m.local, m.entry.nums[CDIR_OFFSET])]
  }

  lemma {:induction false} AgainSame(ms: seq<Member>)
    ensures Records(Again(ms)) == Records(ms) && |Directory(Again(ms))| <= |Directory(ms)|
  {
    if ms != [] {
      var n := |ms| - 1;
      AgainSame(ms[..n]);
      assert Again(ms)[..n] == Again(ms[..n]);
      PackSize(ms[n].entry);
      PackSize(Again(ms)[n].entry);
    }
  }

  lemma {:induction false} AgainAt(ms: seq<Member>, i: nat)
    requires i < |ms|
    ensures Again(ms)[i] == Member(CleanEntry(ms[i].entry, |Records(ms[..i])|), ms[i].local, ms[i].entry.nums[CDIR_OFFSET])
    decreases |ms|
  {
    hide Records, CleanEntry;
    var n := |ms| - 1;
    if i < n {
      AgainAt(ms[..n], i);
      assert ms[..n][..i] == ms[..i];
    }
  }

  lemma AgainMembers(ms: seq<Member>)
    ensures MemberNames(Again(ms)) == MemberNames(ms)
    ensures forall i :: 0 <= i < |ms| ==> Again(ms)[i].local == ms[i].local
  {
    hide Again, Records;
    forall i | 0 <= i < |ms|
      ensures Again(ms)[i].local == ms[i].local && EntryName(Again(ms)[i].entry) == EntryName(ms[i].entry)
    {
      AgainAt(ms, i);
    }
  }

  lemma LaidOutPrefix(start: nat, ms: seq<Member>, n: nat)
    requires n <= |ms| && LaidOut(start, ms)
    ensures LaidOut(start, ms[..n])
  {
    forall i | 0 <= i < n ensures MemberOk(start, ms[..n], i) {
      assert MemberOk(start, ms, i) && ms[..n][..i] == ms[..i];
    }
  }

  lemma WriteAgain(out: Bytes, prev: seq<Member>, m: Member)
    requires Clean(m) && PointsAt(out, m) && |Records(prev)| < LIMIT32
    ensures WriteEntry(out, 0, prev, m.entry) ==
            Some(prev + [Member(CleanEntry(m.entry, |Records(prev)|), m.local, m.entry.nums[CDIR_OFFSET])])
  {
  }

  /** The second run reads every member back and writes it again. */
  lemma {:induction false} SecondPass(out: Bytes, start: nat, ms: seq<Member>)
    requires LaidOut(start, ms) && forall i :: 0 <= i < |ms| ==> PointsAt(out, ms[i])
    ensures WriteEntries(out, 0, EntriesOf(ms)) == Some(Again(ms))
  {
    hide WriteEntry, CleanEntry, Clean, PointsAt;
    if ms != [] {
      var n := |ms| - 1;
      LaidOutPrefix(start, ms, n);
      SecondPass(out, start, ms[..n]);
      assert EntriesOf(ms)[..n] == EntriesOf(ms[..n]);
      assert MemberOk(start, ms, n) && PointsAt(out, ms[n]);
      AgainSame(ms[..n]);
      WriteAgain(out, Again(ms[..n]), ms[n]);
    }
  }

  lemma {:induction false} RecordsGrow(ms: seq<Member>, i: nat, k: nat)
    requires i <= k <= |ms|
    ensures |Records(ms[..k])| >= |Records(ms[..i])| + (k - i)
  {
    if i < k {
      RecordsGrow(ms, i, k - 1);
      assert ms[..k][..k - 1] == ms[..k - 1];
      FixedSizes();
    }
  }

  /** A member ends inside the readahead area exactly when it is one of the first count. */
  lemma InsideReadAhead(start: nat, ms: seq<Member>, count: nat, i: nat)
    requires i < |ms|
    ensures ReadAhead(start, ms, count) >= start + |Records(ms[..i + 1])| <==> i < count <= |ms|
  {
    hide Records;
    RecordsGrow(ms, 0, i + 1);
    if 0 < count <= |ms| {
      if i < count { RecordsGrow(ms, i + 1, count); } else { RecordsGrow(ms, count, i + 1); }
    }
  }

  lemma AgainLast(start: nat, ms: seq<Member>, n: nat)
    requires LaidOut(start, ms) && 0 < n <= |ms|
    ensures var m := Again(ms[..n])[n - 1];
            && Again(ms[..n]) == Again(ms[..n - 1]) + [m]
            && m.oldOffset + |LocalBytes(m)| == start + |Records(ms[..n])|
            && EntryName(m.entry) == EntryName(ms[n - 1].entry)
  {
    assert ms[..n][..n - 1] == ms[..n - 1];
    assert MemberOk(start, ms, n - 1);
    MemberAt(ms, n - 1);
  }

  /** With the readahead of the first run, exactly the first count members are logged. */
  lemma {:induction false} LoggedAgain(start: nat, ms: seq<Member>, count: nat, n: nat)
    requires LaidOut(start, ms) && n <= |ms|
    ensures OutLog(ReadAhead(start, ms, count), Again(ms[..n])) ==
            MemberNames(ms)[..if count <= |ms| then Min(count, n) else 0]
  {
    hide ReadAhead, LaidOut, LocalBytes, CleanEntry;
    if n > 0 {
      LoggedAgain(start, ms, count, n - 1);
      AgainLast(start, ms, n);
      InsideReadAhead(start, ms, count, n - 1);
    }
  }

  lemma EndFits(end: Record, cdirSize: nat, cdirOffset: nat)
    requires |end.nums| == 8 && Fits(END_WIDTHS, end.nums)
    requires cdirSize <= end.nums[END_CDIR_SIZE] && cdirOffset < LIMIT32
    ensures Fits(END_WIDTHS, NewEnd(end, end.nums[END_ENTRIES], cdirSize, cdirOffset).nums)
  {
    PowSizes();
    var end' := NewEnd(end, end.nums[END_ENTRIES], cdirSize, cdirOffset);
    assert end.nums[END_ENTRIES] < Pow256(END_WIDTHS[END_ENTRIES]);
    assert end.nums[END_CDIR_SIZE] < Pow256(END_WIDTHS[END_CDIR_SIZE]);
    forall i | 0 <= i < 8 ensures end'.nums[i] < Pow256(END_WIDTHS[i]) {}
  }

  /** What is written in plain form can be read: records, directory, end record. */
  lemma PlainServed(dirend: Record, ms: seq<Member>, readahead: nat)
    requires |dirend.nums| == 8 && dirend.strs == [] && dirend.nums[END_SIG] == END_SIGNATURE
    requires LaidOut(0, ms) && PlainJar(dirend, ms, readahead).Some?
    ensures Serves(PlainJar(dirend, ms, readahead).value.jar, |Records(ms)|, ms,
                   NewEnd(dirend, |ms|, |Directory(ms)|, |Records(ms)|))
  {
    hide LaidOut, Records, Directory, Fits, Serves, Pack, OutLog;
    var end := NewEnd(dirend, |ms|, |Directory(ms)|, |Records(ms)|);
    EndSize(end);
    ThreeParts(Records(ms), Directory(ms), Pack(CDIR_END, end));
    PartsServed(PlainJar(dirend, ms, readahead).value.jar, 0, |Records(ms)|, ms, end);
  }

  lemma ThreeParts(a: Bytes, b: Bytes, c: Bytes)
    ensures var w := a + (b + c); Contains(w, 0, a) && Contains(w, |a|, b) && Contains(w, |w| - |c|, c)
  {
  }

  lemma CleanTwice(e: Entry, a: nat, b: nat)
    ensures CleanEntry(CleanEntry(e, a), b) == CleanEntry(e, b)
  {
    assert e.strs[EXTRA := []][EXTRA := []] == e.strs[EXTRA := []];
    assert CleanEntry(CleanEntry(e, a), b).nums == CleanEntry(e, b).nums;
  }

  lemma AgainClean(m: Member, offset: nat)
    requires Clean(m) && offset < LIMIT32
    ensures Clean(Member(CleanEntry(m.entry, offset), m.local, m.entry.nums[CDIR_OFFSET]))
  {
    CleanConsistent(m.entry, m.local, offset);
  }

  /** Written again, the members are laid out from 0. */
  lemma {:induction false} AgainLaidOut(start: nat, ms: seq<Member>)
    requires LaidOut(start, ms) && |Records(ms)| < LIMIT32
    ensures LaidOut(0, Again(ms))
  {
    hide Clean, CleanEntry, LocalBytes;
    if ms != [] {
      var n := |ms| - 1;
      LaidOutPrefix(start, ms, n);
      AgainLaidOut(start, ms[..n]);
      assert MemberOk(start, ms, n);
      AgainClean(ms[n], |Records(ms[..n])|);
      AgainSame(ms[..n]);
      CleanOffset(ms[n].entry, |Records(ms[..n])|);
      forall i | 0 <= i < |ms| ensures MemberOk(0, Again(ms), i) {
        assert Again(ms)[..i] == Again(ms[..n])[..i];
        if i < n { assert MemberOk(0, Again(ms[..n]), i); }
      }
    }
  }

  lemma CleanOffset(e: Entry, offset: nat)
    ensures CleanEntry(e, offset).nums[CDIR_OFFSET] == offset
  {
  }

  /** Putting an ordered jar back does not fail, leaves a jar that can be read with the same records, and recovers the
      names of the first members. */
  lemma PutBack(out: Bytes, readahead: nat, start: nat, ms: seq<Member>, end: Record, count: nat)
    requires Readable(out, readahead, ms, end) && LaidOut(start, ms) && Fits(END_WIDTHS, end.nums)
    requires readahead == ReadAhead(start, ms, count) && |Records(ms)| < LIMIT32
    ensures Optimize(out, None).Some?
    ensures Optimize(out, None).value.log == MemberNames(ms)[..if count <= |ms| then count else 0]
    ensures var ms' := Again(ms);
            && Serves(Optimize(out, None).value.jar, |Records(ms')|, ms', NewEnd(end, |ms'|, |Directory(ms')|, |Records(ms')|))
            && MemberNames(ms') == MemberNames(ms) && forall i :: 0 <= i < |ms| ==> ms'[i].local == ms[i].local
  {
    hide LaidOut, Fits, NewEnd, ReadAhead, PointsAt, ReadDirEnd, ReadDir, WriteEntries, OutLog, Records, Directory;
    SecondPass(out, start, ms);
    AgainSame(ms);
    AgainLaidOut(start, ms);
    AgainMembers(ms);
    EndShape(out, end);
    EndFits(end, |Directory(Again(ms))|, |Records(ms)|);
    PlainServed(end, Again(ms), readahead);
    LoggedAgain(start, ms, count, |ms|);
    assert ms[..|ms|] == ms;
  }

  predicate NamesNoDirectory(wanted: seq<Bytes>) {
    forall i :: 0 <= i < |wanted| ==> !IsDirName(wanted[i])
  }

  /** Optimizing with a log and putting the jar back gives the log back: its lines that exist in the
      jar, without repeats, in log order. It does so exactly when none of them names a directory member. */
  lemma LogRoundTrip(jar: Bytes, log: seq<Bytes>)
    requires WellFormed(jar) && Optimize(jar, Some(log)).Some?
    requires |Optimize(jar, Some(log)).value.jar| < LIMIT32
    ensures var wanted := Wanted(log, NamesOf(Listed(jar)));
            var back := Optimize(Optimize(jar, Some(log)).value.jar, None);
            && back.Some?
            && (back.value.log == wanted <==> NamesNoDirectory(wanted))
  {
    hide Optimize, WellFormed, LaidOut, Readable, Serves, Again, Fits, Reorder, WriteEntries, Directory, Records;
    var ms, end, start, count := OrderedJarReadable(jar, log);
    var out := Optimize(jar, Some(log)).value.jar;
    var o := Ordered(jar, log);
    var wanted := Wanted(log, NamesOf(Listed(jar)));
    ReadDirEndSize(out, ReadAhead(start, ms, count), ms, end);
    PutBack(out, ReadAhead(start, ms, count), start, ms, end, count);
    ReorderFront(Listed(jar), log);
    var k := if count <= |ms| then count else 0;
    if NamesNoDirectory(wanted) {
      FrontIsWanted(o, wanted);
      FileNamesFront(NamesOf(o.cd), count);
    } else {
      var i :| 0 <= i < |wanted| && IsDirName(wanted[i]);
      MembersAreFiles(start, ms);
    }
  }

  lemma FrontIsWanted(o: Order, wanted: seq<Bytes>)
    requires OrderOk(o) && NamesOf(o.cd)[..o.count] == wanted && NamesNoDirectory(wanted)
    ensures forall i :: 0 <= i < o.count ==> !IsDirName(NamesOf(o.cd)[i])
  {
    forall i | 0 <= i < o.count ensures !IsDirName(NamesOf(o.cd)[i]) {
      assert wanted[i] == NamesOf(o.cd)[i];
    }
  }

  lemma MembersAreFiles(start: nat, ms: seq<Member>)
    requires LaidOut(start, ms)
    ensures forall i :: 0 <= i < |ms| ==> !IsDirName(MemberNames(ms)[i])
  {
    forall i | 0 <= i < |ms| ensures !IsDirName(MemberNames(ms)[i]) {
      assert MemberOk(start, ms, i);
    }
  }

  lemma ReadDirEndSize(out: Bytes, readahead: nat, ms: seq<Member>, end: Record)
    requires |end.nums| == 8 && out == FrontLayout(readahead, ms, end)
    ensures |Records(ms)| <= |out|
  {
  }

  // ---------- no member lost, none changed ----------

  /** The member written for an entry: same name, same data, same numbers but for time, date, extra
      field and offset. */
  ghost predicate WrittenFor(jar: Bytes, e: Entry, m: Member) {
    && Read(jar, LOCAL_FILE, e.nums[CDIR_OFFSET]).Some?
    && m.local == CleanLocal(Read(jar, LOCAL_FILE, e.nums[CDIR_OFFSET]).value)
    && m.entry == CleanEntry(e, m.entry.nums[CDIR_OFFSET])
  }

  /** The entries that are not directories. */
  function Files(cd: seq<Entry>): seq<Entry> {
    if cd == [] then []
    else Files(cd[..|cd| - 1]) + if IsDirName(EntryName(cd[|cd| - 1])) then [] else [cd[|cd| - 1]]
  }

  lemma {:induction false} FilesCount(cd: seq<Entry>, e: Entry)
    ensures multiset(Files(cd))[e] == if IsDirName(EntryName(e)) then 0 else multiset(cd)[e]
  {
    hide IsDirName, EntryName;
    if cd != [] {
      var n := |cd| - 1;
      FilesCount(cd[..n], e);
      assert cd == cd[..n] + [cd[n]];
      CountLast(cd[..n], cd[n], e);
      CountLast(Files(cd[..n]), cd[n], e);
      assert Files(cd[..n]) + [] == Files(cd[..n]);
    }
  }

  lemma CountLast(es: seq<Entry>, last: Entry, e: Entry)
    ensures multiset(es + [last])[e] == multiset(es)[e] + if e == last then 1 else 0
  {
  }

  lemma FilesPermuted(a: seq<Entry>, b: seq<Entry>)
    requires multiset(a) == multiset(b)
    ensures multiset(Files(a)) == multiset(Files(b))
  {
    forall e ensures multiset(Files(a))[e] == multiset(Files(b))[e] {
      FilesCount(a, e);
      FilesCount(b, e);
    }
  }

  /** One member for each of a list of files, in its order. */
  ghost predicate OneEach(jar: Bytes, files: seq<Entry>, ms: seq<Member>) {
    |ms| == |files| && forall i :: 0 <= i < |ms| ==> WrittenFor(jar, files[i], ms[i])
  }

  /** Every file of the directory gets exactly one member, in directory order, and nothing else gets one. */
  lemma {:induction false} EveryFileWritten(jar: Bytes, start: nat, cd: seq<Entry>)
    requires WriteEntries(jar, start, cd).Some?
    ensures OneEach(jar, Files(cd), WriteEntries(jar, start, cd).value)
  {
    hide WriteEntry, WrittenFor;
    if cd != [] {
      var n := |cd| - 1;
      EveryFileWritten(jar, start, cd[..n]);
      WrittenLast(jar, start, WriteEntries(jar, start, cd[..n]).value, cd[n]);
    }
  }

  lemma WrittenLast(jar: Bytes, start: nat, ms: seq<Member>, e: Entry)
    requires WriteEntry(jar, start, ms, e).Some?
    ensures var ms' := WriteEntry(jar, start, ms, e).value;
            if IsDirName(EntryName(e)) then ms' == ms
            else |ms'| == |ms| + 1 && ms'[..|ms|] == ms && WrittenFor(jar, e, ms'[|ms|])
  {
    if !IsDirName(EntryName(e)) {
      var m := WriteEntry(jar, start, ms, e).value[|ms|];
      assert m.entry.nums[CDIR_OFFSET] == start + |Records(ms)|;
    }
  }

  /** Each file of a directory is written exactly once, in some order, and nothing else is. */
  ghost predicate AllWritten(jar: Bytes, cd: seq<Entry>, ms: seq<Member>) {
    exists files :: multiset(files) == multiset(Files(cd)) && OneEach(jar, files, ms)
  }

  /** Reordered or not, they are the files of the directory. */
  lemma OrderedWritten(jar: Bytes, log: seq<Bytes>, start: nat, ms: seq<Member>)
    requires WellFormed(jar) && WriteEntries(jar, start, Ordered(jar, log).cd) == Some(ms)
    ensures AllWritten(jar, Listed(jar), ms)
  {
    hide WellFormed, WriteEntries, OneEach;
    var o := Ordered(jar, log);
    EveryFileWritten(jar, start, o.cd);
    FilesPermuted(o.cd, Listed(jar));
  }

  /** The entry and the record read in an output are those of an input file: name, data, comment and every number, but
      that the extra fields are empty, the time is midnight of January 1st, 2010, and the offset is a new one. */
  ghost predicate SameFile(e: Entry, l: Local, e': Entry, l': Local) {
    && e'.strs[NAME] == e.strs[NAME] && e'.strs[DATA] == e.strs[DATA] && e'.strs[EXTRA] == []
    && l'.strs[NAME] == l.strs[NAME] && l'.strs[DATA] == l.strs[DATA] && l'.strs[EXTRA] == []
    && e'.nums[CDIR_TIME] == l'.nums[LOCAL_TIME] == 0
    && e'.nums[CDIR_DATE] == l'.nums[LOCAL_DATE] == (2010 - 1980) * 512 + 1 * 32 + 1
    && e'.nums[CDIR_EXTRA_LEN] == l'.nums[LOCAL_EXTRA_LEN] == 0
    && (forall i :: 0 <= i < 17 && i !in {CDIR_TIME, CDIR_DATE, CDIR_EXTRA_LEN, CDIR_OFFSET} ==> e'.nums[i] == e.nums[i])
    && (forall i :: 0 <= i < 11 && i !in {LOCAL_TIME, LOCAL_DATE, LOCAL_EXTRA_LEN} ==> l'.nums[i] == l.nums[i])
  }

  ghost predicate ReadsAs(jar: Bytes, e: Entry, out: Bytes, e': Entry) {
    var l, l' := Read(jar, LOCAL_FILE, e.nums[CDIR_OFFSET]), Read(out, LOCAL_FILE, e'.nums[CDIR_OFFSET]);
    l.Some? && l'.Some? && SameFile(e, l.value, e', l'.value)
  }

  /** The numbers of an end record but for the entries, which are counted twice, and the place and size of the directory. */
  predicate SameEnd(end: Record, end': Record) {
    && |end.nums| == |end'.nums| == 8 && end'.nums[END_DISK_ENTRIES] == end'.nums[END_ENTRIES]
    && forall i :: 0 <= i < 8 && i !in {END_DISK_ENTRIES, END_ENTRIES, END_CDIR_SIZE, END_CDIR_OFFSET} ==> end'.nums[i] == end.nums[i]
  }

  /** Read from its end record on, the output has exactly these files of the input, in this order. */
  ghost predicate Delivers(jar: Bytes, files: seq<Entry>, out: Bytes) {
    && ReadDirEnd(jar).Some? && ReadDirEnd(out).Some? && SameEnd(ReadDirEnd(jar).value, ReadDirEnd(out).value)
    && var end := ReadDirEnd(out).value.nums;
       var dir := ReadDir(out, end[END_CDIR_OFFSET], end[END_ENTRIES]);
       && end[END_ENTRIES] == |files| && dir.Some?
       && end[END_CDIR_OFFSET] + end[END_CDIR_SIZE] == DirEnd(out, end[END_CDIR_OFFSET], end[END_ENTRIES]) <= |out|
       && forall i :: 0 <= i < |files| ==> ReadsAs(jar, files[i], out, dir.value[i])
  }

  /** The files are the entries of a directory whose names do not end in a slash, each as often as it is listed. */
  ghost predicate FilesOf(files: seq<Entry>, cd: seq<Entry>) {
    forall e: Entry ::
      var name := e.strs[NAME];
      multiset(files)[e] == if name != [] && name[|name| - 1] as int == '/' as int then 0 else multiset(cd)[e]
  }

  lemma FilesAreOf(files: seq<Entry>, cd: seq<Entry>)
    requires multiset(files) == multiset(Files(cd))
    ensures FilesOf(files, cd)
  {
    forall e: Entry ensures multiset(files)[e] == if IsDirName(EntryName(e)) then 0 else multiset(cd)[e] { FilesCount(cd, e); }
  }

  lemma WrittenMeans(jar: Bytes, e: Entry, m: Member, out: Bytes)
    requires WrittenFor(jar, e, m) && PointsAt(out, m)
    ensures ReadsAs(jar, e, out, m.entry)
  {
    hide Read;
  }

  lemma ServedDelivers(jar: Bytes, files: seq<Entry>, ms: seq<Member>, out: Bytes, pos: nat, end: Record)
    requires OneEach(jar, files, ms) && Serves(out, pos, ms, end)
    requires ReadDirEnd(jar).Some? && SameEnd(ReadDirEnd(jar).value, end)
    ensures Delivers(jar, files, out)
  {
    hide WrittenFor, PointsAt, ReadsAs, ReadDir, ReadDirEnd, DirEnd;
    forall i | 0 <= i < |files| ensures ReadsAs(jar, files[i], out, EntriesOf(ms)[i]) { WrittenMeans(jar, files[i], ms[i], out); }
  }

  /** In an ordered jar every file of the input is listed once and readable with its data, and nothing
      else is listed. */
  lemma ContentsKept(jar: Bytes, log: seq<Bytes>) returns (files: seq<Entry>)
    requires WellFormed(jar) && Optimize(jar, Some(log)).Some?
    ensures FilesOf(files, Listed(jar)) && Delivers(jar, files, Optimize(jar, Some(log)).value.jar)
  {
    hide Optimize, WellFormed, LaidOut, Fits, WriteEntries, OneEach, Serves, FrontLayout, Delivers, FilesOf, Files, Reorder;
    var ms, end, start, count := OrderedJarReadable(jar, log);
    OrderedWritten(jar, log, start, ms);
    files :| multiset(files) == multiset(Files(Listed(jar))) && OneEach(jar, files, ms);
    FilesAreOf(files, Listed(jar));
    ServedDelivers(jar, files, ms, Optimize(jar, Some(log)).value.jar, FRONT, end);
  }

  /** Put in plain form, a jar lists every file of the input once and in its order, readable with its data, and nothing else. */
  lemma PlainContentsKept(jar: Bytes)
    requires WellFormed(jar) && Optimize(jar, None).Some?
    ensures var files := Files(Listed(jar));
            && FilesOf(files, Listed(jar)) && NamesOf(files) == FileNames(NamesOf(Listed(jar)))
            && Delivers(jar, files, Optimize(jar, None).value.jar)
  {
    hide OneEach, Serves, Delivers, FilesOf, WellFormed, Optimize;
    var ms, end := PlainParts(jar);
    FilesAreOf(Files(Listed(jar)), Listed(jar));
    FilesNames(Listed(jar));
    ServedDelivers(jar, Files(Listed(jar)), ms, Optimize(jar, None).value.jar, |Records(ms)|, end);
  }

  lemma {:induction false} FilesNames(cd: seq<Entry>)
    ensures NamesOf(Files(cd)) == FileNames(NamesOf(cd))
  {
    if cd != [] {
      FilesNames(cd[..|cd| - 1]);
      assert NamesOf(cd)[..|cd| - 1] == NamesOf(cd[..|cd| - 1]);
    }
  }

  lemma PlainParts(jar: Bytes) returns (ms: seq<Member>, end: Record)
    requires WellFormed(jar) && Optimize(jar, None).Some?
    ensures Serves(Optimize(jar, None).value.jar, |Records(ms)|, ms, end)
    ensures ReadDirEnd(jar).Some? && SameEnd(ReadDirEnd(jar).value, end)
    ensures OneEach(jar, Files(Listed(jar)), ms)
  {
    hide LaidOut, Fits, WriteEntries, WrittenFor, PlainJar, Serves, Records, Directory;
    var d := ReadDirEnd(jar).value;
    var cd := Listed(jar);
    ms := WriteEntries(jar, 0, cd).value;
    end := NewEnd(d, |ms|, |Directory(ms)|, |Records(ms)|);
    EndShape(jar, d);
    DirConsistent(jar, d.nums[END_CDIR_OFFSET], d.nums[END_ENTRIES]);
    WrittenLaidOut(jar, 0, cd);
    EveryFileWritten(jar, 0, cd);
    PlainServed(d, ms, if d.nums[END_CDIR_OFFSET] == FRONT && |jar| >= 4 then DecodeLE(jar[..4]) else 0);
  }

  lemma AgainWrittenFor(jar: Bytes, e: Entry, ms: seq<Member>, i: nat)
    requires i < |ms| && WrittenFor(jar, e, ms[i])
    ensures WrittenFor(jar, e, Again(ms)[i])
  {
    hide Read, Again, Records, CleanLocal;
    AgainAt(ms, i);
    CleanTwice(e, ms[i].entry.nums[CDIR_OFFSET], |Records(ms[..i])|);
    CleanOffset(ms[i].entry, |Records(ms[..i])|);
  }

  lemma AgainAllWritten(jar: Bytes, cd: seq<Entry>, ms: seq<Member>)
    requires AllWritten(jar, cd, ms)
    ensures AllWritten(jar, cd, Again(ms))
  {
    hide WrittenFor, Again, Files;
    var files :| multiset(files) == multiset(Files(cd)) && OneEach(jar, files, ms);
    forall i | 0 <= i < |ms| ensures WrittenFor(jar, files[i], Again(ms)[i]) { AgainWrittenFor(jar, files[i], ms, i); }
    assert OneEach(jar, files, Again(ms));
  }

  lemma EndTwice(end: Record, end': Record, entries: nat, cdirSize: nat, cdirOffset: nat)
    requires SameEnd(end, end')
    ensures SameEnd(end, NewEnd(end', entries, cdirSize, cdirOffset))
  {
  }

  /** Ordered and put back, a jar still has every file of the input once, with its data, and nothing else. */
  lemma RoundTripContents(jar: Bytes, log: seq<Bytes>) returns (files: seq<Entry>)
    requires WellFormed(jar) && Optimize(jar, Some(log)).Some?
    requires |Optimize(jar, Some(log)).value.jar| < LIMIT32
    ensures FilesOf(files, Listed(jar))
    ensures var back := Optimize(Optimize(jar, Some(log)).value.jar, None);
            back.Some? && Delivers(jar, files, back.value.jar)
  {
    hide Optimize, WellFormed, LaidOut, Fits, WriteEntries, AllWritten, ReadDir, FrontLayout, Readable, Serves, Reorder,
         Delivers, FilesOf, Files, SameEnd, NewEnd;
    var first, end1, start, count := OrderedJarReadable(jar, log);
    var out := Optimize(jar, Some(log)).value.jar;
    ReadDirEndSize(out, ReadAhead(start, first, count), first, end1);
    PutBack(out, ReadAhead(start, first, count), start, first, end1, count);
    var ms := Again(first);
    OrderedWritten(jar, log, start, first);
    AgainAllWritten(jar, Listed(jar), first);
    files := AllWrittenList(jar, Listed(jar), ms);
    FilesAreOf(files, Listed(jar));
    EndTwice(ReadDirEnd(jar).value, end1, |ms|, |Directory(ms)|, |Records(ms)|);
    ServedDelivers(jar, files, ms, Optimize(out, None).value.jar, |Records(ms)|, NewEnd(end1, |ms|, |Directory(ms)|, |Records(ms)|));
  }

  lemma AllWrittenList(jar: Bytes, cd: seq<Entry>, ms: seq<Member>) returns (files: seq<Entry>)
    requires AllWritten(jar, cd, ms)
    ensures multiset(files) == multiset(Files(cd)) && OneEach(jar, files, ms)
  {
    files :| multiset(files) == multiset(Files(cd)) && OneEach(jar, files, ms);
  }

  // ---------- when it succeeds ----------

  /** The local header is there and has the name of the entry. */
  predicate NamesAgree(jar: Bytes, e: Entry) {
    var l := Read(jar, LOCAL_FILE, e.nums[CDIR_OFFSET]);
    l.Some? && l.value.strs[NAME] == EntryName(e)
  }

  predicate AllNamesAgree(jar: Bytes, cd: seq<Entry>) {
    forall i :: 0 <= i < |cd| ==> NamesAgree(jar, cd[i])
  }

  function RecordSize(jar: Bytes, e: Entry): nat {
    match Read(jar, LOCAL_FILE, e.nums[CDIR_OFFSET])
    case None => 0
    case Some(l) => |Pack(LOCAL_FILE, CleanLocal(l))|
  }

  /** What the records of these files take once their extra fields are gone. */
  function RecordsSize(jar: Bytes, files: seq<Entry>): nat {
    if files == [] then 0 else RecordsSize(jar, files[..|files| - 1]) + RecordSize(jar, files[|files| - 1])
  }

  /** Every record starts below 2^32. */
  predicate OffsetsFit(jar: Bytes, start: nat, files: seq<Entry>) {
    forall k :: 0 <= k < |files| ==> start + RecordsSize(jar, files[..k]) < LIMIT32
  }

  lemma {:induction false} OneEachSize(jar: Bytes, files: seq<Entry>, ms: seq<Member>)
    requires OneEach(jar, files, ms)
    ensures |Records(ms)| == RecordsSize(jar, files)
  {
    if ms != [] {
      var n := |ms| - 1;
      OneEachSize(jar, files[..n], ms[..n]);
      assert WrittenFor(jar, files[n], ms[n]);
    }
  }

  lemma OneEachPrefix(jar: Bytes, files: seq<Entry>, ms: seq<Member>, k: nat)
    requires OneEach(jar, files, ms) && k <= |ms|
    ensures OneEach(jar, files[..k], ms[..k])
  {
    hide WrittenFor;
  }

  lemma WriteEntryIff(jar: Bytes, start: nat, ms: seq<Member>, e: Entry)
    ensures WriteEntry(jar, start, ms, e).Some? <==>
              NamesAgree(jar, e) && (IsDirName(EntryName(e)) || start + |Records(ms)| < LIMIT32)
  {
  }

  /** The main loop ends without an error exactly if all names agree and all offsets fit. */
  lemma {:induction false} WriteEntriesIff(jar: Bytes, start: nat, cd: seq<Entry>)
    ensures WriteEntries(jar, start, cd).Some? <==> AllNamesAgree(jar, cd) && OffsetsFit(jar, start, Files(cd))
  {
    hide WriteEntry, NamesAgree, RecordsSize;
    if cd != [] {
      var n := |cd| - 1;
      var before, files := Files(cd[..n]), Files(cd);
      WriteEntriesIff(jar, start, cd[..n]);
      assert AllNamesAgree(jar, cd) <==> AllNamesAgree(jar, cd[..n]) && NamesAgree(jar, cd[n]);
      OffsetsFitMore(jar, start, before, cd[n]);
      if WriteEntries(jar, start, cd[..n]).Some? {
        EveryFileWritten(jar, start, cd[..n]);
        OneEachSize(jar, before, WriteEntries(jar, start, cd[..n]).value);
        WriteEntryIff(jar, start, WriteEntries(jar, start, cd[..n]).value, cd[n]);
      }
      if IsDirName(EntryName(cd[n])) { assert files == before; }
    }
  }

  lemma OffsetsFitMore(jar: Bytes, start: nat, files: seq<Entry>, e: Entry)
    ensures OffsetsFit(jar, start, files + [e]) <==>
              OffsetsFit(jar, start, files) && start + RecordsSize(jar, files) < LIMIT32
  {
    hide RecordsSize;
    var more := files + [e];
    assert more[..|files|] == files;
    assert forall k :: 0 <= k < |files| ==> more[..k] == files[..k];
    if OffsetsFit(jar, start, more) {
      forall k | 0 <= k < |files| ensures start + RecordsSize(jar, files[..k]) < LIMIT32 {
        assert start + RecordsSize(jar, more[..k]) < LIMIT32;
      }
      assert start + RecordsSize(jar, more[..|files|]) < LIMIT32;
    }
  }

  lemma {:induction false} FewerFiles(cd: seq<Entry>)
    ensures |Files(cd)| <= |cd|
  {
    if cd != [] { FewerFiles(cd[..|cd| - 1]); }
  }

  /** The end record of a well-formed jar still fits with fewer entries and a smaller directory. */
  lemma NewEndFits(jar: Bytes, entries: nat, cdirSize: nat, cdirOffset: nat)
    requires WellFormed(jar) && entries <= |Listed(jar)| && cdirSize <= EntriesSize(Listed(jar))
    ensures Fits(END_WIDTHS, NewEnd(ReadDirEnd(jar).value, entries, cdirSize, cdirOffset).nums) <==> cdirOffset < LIMIT32
  {
    PowSizes();
    FixedSizes();
    ReadInside(jar, CDIR_END, |jar| - END_SIZE);
    var d := ReadDirEnd(jar).value;
    var end := NewEnd(d, entries, cdirSize, cdirOffset);
    assert d.nums[END_ENTRIES] < Pow256(END_WIDTHS[END_ENTRIES]);
    assert d.nums[END_CDIR_SIZE] < Pow256(END_WIDTHS[END_CDIR_SIZE]);
    if cdirOffset < LIMIT32 {
      forall i | 0 <= i < 8 ensures end.nums[i] < Pow256(END_WIDTHS[i]) {}
    } else {
      assert end.nums[END_CDIR_OFFSET] >= Pow256(END_WIDTHS[END_CDIR_OFFSET]);
    }
  }

  /** Where the records of an ordered jar start. */
  function FrontSize(cd: seq<Entry>): nat {
    4 + CleanSizes(cd) + END_SIZE
  }

  /** Ordering a well-formed jar fails only on a local header that is missing or has another name, or on an offset of
      2^32 or more, that of the end of the logged files included. */
  lemma OrderingSucceedsIff(jar: Bytes, log: seq<Bytes>)
    requires WellFormed(jar)
    ensures var o := Ordered(jar, log);
            var start, files := FrontSize(Listed(jar)), Files(o.cd);
            Optimize(jar, Some(log)).Some? <==>
              && AllNamesAgree(jar, Listed(jar)) && OffsetsFit(jar, start, files)
              && (0 < o.count <= |files| ==> start + RecordsSize(jar, files[..o.count]) < LIMIT32)
  {
    hide WriteEntries, OrderedJar, Reorder, AllNamesAgree, OffsetsFit, RecordsSize, CleanSizes, Files, ReadDirEnd, ReadDir;
    var d, cd, o := ReadDirEnd(jar).value, Listed(jar), Ordered(jar, log);
    var start := FrontSize(cd);
    ReservedRoom(jar);
    AgreePermuted(jar, cd, o.cd);
    WriteEntriesIff(jar, start, o.cd);
    if WriteEntries(jar, start, o.cd).Some? {
      var ms := WriteEntries(jar, start, o.cd).value;
      EveryFileWritten(jar, start, o.cd);
      OrderedSucceedsIff(jar, start, o.cd, ms, o.count);
    }
  }

  lemma ReservedRoom(jar: Bytes)
    requires WellFormed(jar)
    ensures Reserve(ReadDirEnd(jar).value, Listed(jar)) == FrontSize(Listed(jar))
  {
    var d := ReadDirEnd(jar).value;
    DirConsistent(jar, d.nums[END_CDIR_OFFSET], d.nums[END_ENTRIES]);
    StrippedSize(Listed(jar));
  }

  lemma AgreePermuted(jar: Bytes, a: seq<Entry>, b: seq<Entry>)
    requires multiset(a) == multiset(b)
    ensures AllNamesAgree(jar, a) <==> AllNamesAgree(jar, b)
  {
    hide NamesAgree;
    if AllNamesAgree(jar, a) { AgreePermutedOne(jar, a, b); }
    if AllNamesAgree(jar, b) { AgreePermutedOne(jar, b, a); }
  }

  lemma AgreePermutedOne(jar: Bytes, a: seq<Entry>, b: seq<Entry>)
    requires multiset(a) == multiset(b) && AllNamesAgree(jar, a)
    ensures AllNamesAgree(jar, b)
  {
    hide NamesAgree;
    forall i | 0 <= i < |b| ensures NamesAgree(jar, b[i]) {
      assert b[i] in multiset(b);
      assert b[i] in multiset(a);
      var j :| 0 <= j < |a| && a[j] == b[i];
    }
  }

  lemma OrderedSucceedsIff(jar: Bytes, start: nat, cd: seq<Entry>, ms: seq<Member>, count: nat)
    requires WellFormed(jar) && multiset(cd) == multiset(Listed(jar)) && start == FrontSize(Listed(jar))
    requires WriteEntries(jar, start, cd) == Some(ms)
    ensures OrderedJar(ReadDirEnd(jar).value, start, ms, count).Some? <==>
              (0 < count <= |Files(cd)| ==> start + RecordsSize(jar, Files(cd)[..count]) < LIMIT32)
  {
    hide Files, RecordsSize, OneEach, Fits, WellFormed, Records, Directory, CleanSizes, EntriesSize;
    WrittenSizes(jar, start, cd, ms);
    NewEndFits(jar, |ms|, |Directory(ms)|, FRONT);
    if 0 < count <= |ms| {
      OneEachPrefix(jar, Files(cd), ms, count);
      OneEachSize(jar, Files(cd)[..count], ms[..count]);
    }
  }

  lemma WrittenSizes(jar: Bytes, start: nat, cd: seq<Entry>, ms: seq<Member>)
    requires WellFormed(jar) && multiset(cd) == multiset(Listed(jar)) && WriteEntries(jar, start, cd) == Some(ms)
    ensures OneEach(jar, Files(cd), ms) && |ms| == |Files(cd)|
    ensures |ms| <= |Listed(jar)| && |Directory(ms)| <= EntriesSize(Listed(jar))
  {
    hide WriteEntries, Files, WrittenFor;
    EveryFileWritten(jar, start, cd);
    FewerFiles(cd);
    assert |cd| == |multiset(cd)|;
    DirectorySize(jar, start, cd);
    CleanSizesPermuted(cd, Listed(jar));
    var d := ReadDirEnd(jar).value;
    DirConsistent(jar, d.nums[END_CDIR_OFFSET], d.nums[END_ENTRIES]);
    StrippedSize(Listed(jar));
  }

  /** Putting a well-formed jar in plain form fails only on such a header, or when its records reach 2^32. */
  lemma PlainSucceedsIff(jar: Bytes)
    requires WellFormed(jar)
    ensures Optimize(jar, None).Some? <==>
              AllNamesAgree(jar, Listed(jar)) && RecordsSize(jar, Files(Listed(jar))) < LIMIT32
  {
    hide WriteEntries, AllNamesAgree, OffsetsFit, RecordsSize, Files, ReadDirEnd, ReadDir, OutLog, Fits, OneEach;
    var d, cd := ReadDirEnd(jar).value, Listed(jar);
    WriteEntriesIff(jar, 0, cd);
    if RecordsSize(jar, Files(cd)) < LIMIT32 { PrefixesFit(jar, Files(cd)); }
    if WriteEntries(jar, 0, cd).Some? {
      var ms := WriteEntries(jar, 0, cd).value;
      WrittenSizes(jar, 0, cd, ms);
      OneEachSize(jar, Files(cd), ms);
      NewEndFits(jar, |ms|, |Directory(ms)|, |Records(ms)|);
    }
  }

  lemma {:induction false} PrefixesFit(jar: Bytes, files: seq<Entry>)
    requires RecordsSize(jar, files) < LIMIT32
    ensures OffsetsFit(jar, 0, files)
  {
    hide RecordSize;
    if files != [] {
      var n := |files| - 1;
      PrefixesFit(jar, files[..n]);
      OffsetsFitMore(jar, 0, files[..n], files[n]);
      assert files == files[..n] + [files[n]];
    }
  }

  // ---------- a log that does not come back ----------

  const DIR_NAME: Bytes := [100, SLASH]

  /** A jar that has one member, the directory d. */
  function DirLocal(): Local {
    Record(seq(11, i => if i == LOCAL_NAME_LEN then 2 else 0), [DIR_NAME, [], []])
  }

  function DirEntry(): Entry {
    Record(seq(17, i => if i == CDIR_NAME_LEN then 2 else 0), [DIR_NAME, [], []])
  }

  function DirEndRecord(): Record {
    Record(seq(8, i => if i == END_SIG then END_SIGNATURE else if i == END_ENTRIES || i == END_DISK_ENTRIES then 1
                       else if i == END_CDIR_SIZE then 48 else if i == END_CDIR_OFFSET then 32 else 0), [])
  }

  function DirJar(): Bytes {
    Pack(LOCAL_FILE, DirLocal()) + (Pack(CDIR_ENTRY, DirEntry()) + Pack(CDIR_END, DirEndRecord()))
  }

  lemma DirRecords()
    ensures Consistent(LOCAL_FILE, DirLocal()) && Consistent(CDIR_ENTRY, DirEntry()) && Consistent(CDIR_END, DirEndRecord())
    ensures |Pack(LOCAL_FILE, DirLocal())| == 32 && |Pack(CDIR_ENTRY, DirEntry())| == 48
    ensures |Pack(CDIR_END, DirEndRecord())| == 22
  {
    PowSizes();
    FixedSizes();
    ConcatThree(DIR_NAME, [], []);
    forall i | 0 <= i < 11 ensures DirLocal().nums[i] < Pow256(LOCAL_WIDTHS[i]) {}
    forall i | 0 <= i < 17 ensures DirEntry().nums[i] < Pow256(CDIR_WIDTHS[i]) {}
    forall i | 0 <= i < 8 ensures DirEndRecord().nums[i] < Pow256(END_WIDTHS[i]) {}
  }

  /** It is well-formed, and its only member is read as it was written. */
  lemma DirJarWellFormed()
    ensures WellFormed(DirJar()) && Listed(DirJar()) == [DirEntry()] && ReadDirEnd(DirJar()) == Some(DirEndRecord())
    ensures Read(DirJar(), LOCAL_FILE, 0) == Some(DirLocal()) && EntriesSize([DirEntry()]) == 48
  {
    hide Pack, Read, ReadEnd, Fits, DirLocal, DirEntry;
    var jar, l, e, d := DirJar(), DirLocal(), DirEntry(), DirEndRecord();
    DirRecords();
    ThreeParts(Pack(LOCAL_FILE, l), Pack(CDIR_ENTRY, e), Pack(CDIR_END, d));
    EndReadable(jar, d);
    ReadPacked(jar, LOCAL_FILE, l, 0);
    ReadPacked(jar, CDIR_ENTRY, e, 32);
    DirNumbers();
    assert ReadDir(jar, 80, 0) == Some([]) && DirEnd(jar, 80, 0) == 80;
    assert ReadDir(jar, 32, 1) == Some([e] + []) && [e] + [] == [e];
    assert DirEnd(jar, 32, 1) == 80;
    assert [e][1..] == [] && EntriesSize([]) == 0;
  }

  lemma DirNumbers()
    ensures DirEntry().nums[CDIR_OFFSET] == 0 && EntryName(DirEntry()) == DIR_NAME && IsDirName(DIR_NAME)
    ensures DirLocal().strs[NAME] == DIR_NAME
  {
  }

  /** Optimized with a log that names its member, it does not give the log back. */
  lemma DirectoryLogLost()
    ensures WellFormed(DirJar()) && Wanted([DIR_NAME], NamesOf(Listed(DirJar()))) == [DIR_NAME]
    ensures var r := Optimize(DirJar(), Some([DIR_NAME]));
            && r.Some? && |r.value.jar| < LIMIT32
            && Optimize(r.value.jar, None).Some? && Optimize(r.value.jar, None).value.log != [DIR_NAME]
  {
    hide WellFormed, Pack, Read, Fits, DirLocal, DirEntry;
    DirJarWellFormed();
    DirNumbers();
    DirOptimized();
    WantedOne();
    LogRoundTrip(DirJar(), [DIR_NAME]);
  }

  lemma WantedOne()
    ensures Wanted([DIR_NAME], NamesOf([DirEntry()])) == [DIR_NAME]
    ensures !NamesNoDirectory([DIR_NAME])
  {
    hide DirEntry;
    DirNumbers();
    assert NamesOf([DirEntry()])[0] == DIR_NAME && IsDirName([DIR_NAME][0]);
    assert [DIR_NAME][..0] == [] && Wanted([], NamesOf([DirEntry()])) == [];
  }

  lemma DirReordered()
    ensures Reorder(Order([DirEntry()], 0), [DIR_NAME]) == Order([DirEntry()], 1)
    ensures Reserve(DirEndRecord(), [DirEntry()]) == 26
  {
    hide DirEntry, Pack;
    var e := DirEntry();
    DirNumbers();
    DirRecords();
    assert [DIR_NAME][..0] == [] && Reorder(Order([e], 0), []) == Order([e], 0);
    assert Swap([e], 0, 0) == [e];
    assert [e][1..] == [] && Stripped([]) == 0;
  }

  lemma DirWritten()
    ensures WriteEntries(DirJar(), 26, [DirEntry()]) == Some([])
  {
    hide DirJar, DirEntry, DirLocal, Read, WellFormed;
    DirJarWellFormed();
    DirNumbers();
    assert [DirEntry()][..0] == [] && WriteEntries(DirJar(), 26, []) == Some([]);
  }

  lemma DirLaidFront()
    ensures var r := OrderedJar(DirEndRecord(), 26, [], 1); r.Some? && |r.value.jar| == 48
  {
    hide Pack;
    PowSizes();
    var end := NewEnd(DirEndRecord(), 0, 0, FRONT);
    forall i | 0 <= i < 8 ensures end.nums[i] < Pow256(END_WIDTHS[i]) {}
    OrderedBytes(DirEndRecord(), 26, [], 1);
    FrontParts(0, [], end);
  }

  lemma DirOptimized()
    ensures Optimize(DirJar(), Some([DIR_NAME])).Some? && |Optimize(DirJar(), Some([DIR_NAME])).value.jar| == 48
  {
    hide DirJar, DirEntry, Reorder, Reserve, WriteEntries, OrderedJar, ReadDirEnd;
    DirJarWellFormed();
    DirReordered();
    DirWritten();
    DirLaidFront();
  }
}
