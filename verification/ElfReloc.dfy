/** elf-dynstr-gc.c: i386 relocations are corrected for the hole, each exactly once, and still
    lead to the words they led to. */
module ElfReloc {
  import opened LittleEndian
  import opened DynamicSection
  import opened ElfHole

  // ---------- words in the mapped file ----------

  function WordAt(data: Bytes, p: nat): Word
    requires p + 4 <= |data|
  {
    PowSizes();
    DecodeLE(data[p..p + 4])
  }

  function SetWord(data: Bytes, p: nat, w: Word): (r: Bytes)
    requires p + 4 <= |data|
    ensures |r| == |data|
    ensures forall k :: 0 <= k < |data| && !(p <= k < p + 4) ==> r[k] == data[k]
  {
    data[..p] + EncodeLE(4, w) + data[p + 4..]
  }

  lemma SetWordAt(data: Bytes, p: nat, w: Word)
    requires p + 4 <= |data|
    ensures WordAt(SetWord(data, p, w), p) == w
  {
    PowSizes();
    DecodeEncode(4, w);
    assert SetWord(data, p, w)[p..p + 4] == EncodeLE(4, w);
  }

  predicate Disjoint(p: nat, q: nat, n: nat) { p + 4 <= q || q + n <= p }

  /** Words whose four bytes are the same are the same. */
  lemma SameWord(a: Bytes, b: Bytes, p: nat)
    requires p + 4 <= |a| == |b| && forall k :: p <= k < p + 4 ==> a[k] == b[k]
    ensures WordAt(a, p) == WordAt(b, p)
  {
    assert a[p..p + 4] == b[p..p + 4];
  }

  // ---------- one relocation ----------

  const R_386_JMP_SLOT := 7
  const R_386_RELATIVE := 8

  /** vma_to_offset without its warning: the first section whose addresses contain addr, or -1. */
  function Resolve(sections: seq<Shdr>, addr: Word): (off: int)
    ensures -1 <= off < MODULUS
  {
    if sections == [] then -1
    else
      var s := sections[0];
      if s.addr <= addr < Add(s.addr, s.size) then Add(s.offset, Sub(addr, s.addr))
      else Resolve(sections[1..], addr)
  }

  /** With no section the C code warns and uses offset 0. */
  function VmaToOffset(sections: seq<Shdr>, addr: Word): Word {
    var off := Resolve(sections, addr);
    if off < 0 then 0 else off
  }

  method VmaToOffsetLoop(sections: seq<Shdr>, addr: Word) returns (off: Word)
    ensures off == VmaToOffset(sections, addr)
    ensures var i := First(sections, addr);
            off == if i < |sections| then Add(sections[i].offset, Sub(addr, sections[i].addr)) else 0
  {
    for i := 0 to |sections|
      invariant Resolve(sections, addr) == Resolve(sections[i..], addr)
    {
      assert sections[i..][1..] == sections[i + 1..];
      if addr >= sections[i].addr && addr < Add(sections[i].addr, sections[i].size) {
        return Add(sections[i].offset, Sub(addr, sections[i].addr));
      }
    }
    off := 0;
  }

  datatype Env = Env(h: Hole, sections: seq<Shdr>)

  /** The entry at p also has a word to correct: relative and jump-slot entries. */
  predicate Relocates(data: Bytes, p: nat)
    requires p + 8 <= |data|
  {
    var t := WordAt(data, p + 4) % 256;
    t == R_386_RELATIVE || t == R_386_JMP_SLOT
  }

  /** The type is the first byte of the info word: 7 is a jump slot and 8 a relative relocation in the i386 supplement of
      the System V ABI. */
  lemma RelocatesIff(data: Bytes, p: nat)
    requires p + 8 <= |data|
    ensures Relocates(data, p) <==> data[p + 4] == 7 || data[p + 4] == 8
  {
    PowSizes();
    assert data[p + 4..p + 8][0] == data[p + 4];
  }

  function Target(e: Env, data: Bytes, p: nat): Word
    requires p + 8 <= |data|
  {
    VmaToOffset(e.sections, WordAt(data, p))
  }

  predicate InBounds(e: Env, data: Bytes, p: nat) {
    p + 8 <= |data| && (Relocates(data, p) ==> Target(e, data, p) + 4 <= |data|)
  }

  /** One round of remap_rel_section, and for an i386 file of remap_rela_section, whose entries have an addend behind the
      same two words. An entry that leads outside the file is undefined behaviour in C, and nothing is claimed of it. */
  function RemapEntry(e: Env, data: Bytes, p: nat): (r: Bytes)
    ensures |r| == |data|
  {
    if !InBounds(e, data, p) then data
    else
      var t := Target(e, data, p);
      var d := if Relocates(data, p) then SetWord(data, t, FixupAddr(e.h, WordAt(data, t))) else data;
      SetWord(d, p, FixupAddr(e.h, WordAt(d, p)))
  }

  function RemapEntries(e: Env, data: Bytes, ps: seq<nat>): (r: Bytes)
    ensures |r| == |data|
    decreases |ps|
  {
    if ps == [] then data else RemapEntries(e, RemapEntry(e, data, ps[0]), ps[1..])
  }

  lemma {:induction false} RemapEntriesAppend(e: Env, data: Bytes, a: seq<nat>, b: seq<nat>)
    ensures RemapEntries(e, data, a + b) == RemapEntries(e, RemapEntries(e, data, a), b)
    decreases |a|
  {
    if a == [] {
      assert a + b == b;
    } else {
      assert (a + b)[1..] == a[1..] + b;
      RemapEntriesAppend(e, RemapEntry(e, data, a[0]), a[1..], b);
    }
  }

  // ---------- a table of relocations ----------

  /** Entry i's target stays clear of entry j. */
  predicate TargetClear(e: Env, data: Bytes, p: nat, q: nat)
    requires InBounds(e, data, p)
  {
    Relocates(data, p) ==> Disjoint(Target(e, data, p), q, 8)
  }

  predicate TargetsApart(e: Env, data: Bytes, p: nat, q: nat)
    requires InBounds(e, data, p) && InBounds(e, data, q)
  {
    Relocates(data, p) && Relocates(data, q) ==> Disjoint(Target(e, data, p), Target(e, data, q), 4)
  }

  /** Entries and targets do not overlap: no word is corrected through two entries. */
  ghost predicate Separate(e: Env, data: Bytes, ps: seq<nat>) {
    && (forall i :: 0 <= i < |ps| ==> InBounds(e, data, ps[i]))
    && (forall i, j :: 0 <= i < |ps| && 0 <= j < |ps| ==> TargetClear(e, data, ps[i], ps[j]))
    && (forall i, j :: 0 <= i < j < |ps| ==>
          (ps[i] + 8 <= ps[j] || ps[j] + 8 <= ps[i]) && TargetsApart(e, data, ps[i], ps[j]))
  }

  /** Byte k is one of the eight of the entry at p. */
  predicate OfEntry(p: nat, k: nat) { p <= k < p + 8 }

  /** Byte k is one of the four of the word that the entry at p leads to. */
  predicate OfTarget(e: Env, data: Bytes, p: nat, k: nat)
    requires p + 8 <= |data|
  {
    Relocates(data, p) && Target(e, data, p) <= k < Target(e, data, p) + 4
  }

  /** That is: all these bytes are in the file, and none of them is in two entries, in two targets, or in an entry and a
      target. */
  lemma SeparateIff(e: Env, data: Bytes, ps: seq<nat>)
    ensures Separate(e, data, ps) <==>
              && (forall i :: 0 <= i < |ps| ==> ps[i] + 8 <= |data|)
              && (forall i, k: nat :: 0 <= i < |ps| && OfTarget(e, data, ps[i], k) ==> k < |data|)
              && (forall i, j, k: nat :: 0 <= i < |ps| && 0 <= j < |ps| && OfTarget(e, data, ps[i], k) ==> !OfEntry(ps[j], k))
              && (forall i, j, k: nat :: 0 <= i < j < |ps| && OfEntry(ps[i], k) ==> !OfEntry(ps[j], k))
              && (forall i, j, k: nat :: 0 <= i < j < |ps| && OfTarget(e, data, ps[i], k) ==> !OfTarget(e, data, ps[j], k))
  {
    hide Relocates, Target;
    if forall i :: 0 <= i < |ps| ==> ps[i] + 8 <= |data| {
      if forall i, k: nat :: 0 <= i < |ps| && OfTarget(e, data, ps[i], k) ==> k < |data| {
        forall i | 0 <= i < |ps| ensures InBounds(e, data, ps[i]) { LastOfTarget(e, data, ps[i]); }
        forall i, j | 0 <= i < |ps| && 0 <= j < |ps|
          ensures TargetClear(e, data, ps[i], ps[j]) <==> forall k: nat :: OfTarget(e, data, ps[i], k) ==> !OfEntry(ps[j], k)
        {
          ClearBytes(e, data, ps[i], ps[j]);
        }
        forall i, j | 0 <= i < j < |ps|
          ensures ps[i] + 8 <= ps[j] || ps[j] + 8 <= ps[i] <==> forall k: nat :: OfEntry(ps[i], k) ==> !OfEntry(ps[j], k)
          ensures TargetsApart(e, data, ps[i], ps[j]) <==> forall k: nat :: OfTarget(e, data, ps[i], k) ==> !OfTarget(e, data, ps[j], k)
        {
          EntryBytes(ps[i], ps[j]);
          TargetBytes(e, data, ps[i], ps[j]);
        }
      }
    }
  }

  lemma LastOfTarget(e: Env, data: Bytes, p: nat)
    requires p + 8 <= |data|
    ensures Relocates(data, p) ==> OfTarget(e, data, p, Target(e, data, p) + 3)
  {
  }

  lemma ClearBytes(e: Env, data: Bytes, p: nat, q: nat)
    requires InBounds(e, data, p)
    ensures TargetClear(e, data, p, q) <==> forall k: nat :: OfTarget(e, data, p, k) ==> !OfEntry(q, k)
  {
    var t := Target(e, data, p);
    if Relocates(data, p) && !Disjoint(t, q, 8) {
      var k := if t <= q then q else t;
      assert OfTarget(e, data, p, k) && OfEntry(q, k);
    }
  }

  lemma EntryBytes(p: nat, q: nat)
    ensures p + 8 <= q || q + 8 <= p <==> forall k: nat :: OfEntry(p, k) ==> !OfEntry(q, k)
  {
    var k := if p <= q then q else p;
    if !(p + 8 <= q || q + 8 <= p) { assert OfEntry(p, k) && OfEntry(q, k); }
  }

  lemma TargetBytes(e: Env, data: Bytes, p: nat, q: nat)
    requires InBounds(e, data, p) && InBounds(e, data, q)
    ensures TargetsApart(e, data, p, q) <==> forall k: nat :: OfTarget(e, data, p, k) ==> !OfTarget(e, data, q, k)
  {
    var t, u := Target(e, data, p), Target(e, data, q);
    if Relocates(data, p) && Relocates(data, q) && !Disjoint(t, u, 4) {
      var k := if t <= u then u else t;
      assert OfTarget(e, data, p, k) && OfTarget(e, data, q, k);
    }
  }

  /** Byte k belongs to a word that the entry at p corrects. */
  predicate Touches(e: Env, data: Bytes, p: nat, k: nat)
    requires InBounds(e, data, p)
  {
    p <= k < p + 4 || (Relocates(data, p) && Target(e, data, p) <= k < Target(e, data, p) + 4)
  }

  /** What one entry must look like afterwards: its offset and, if it has one, its target word
      shifted once, its info unchanged. */
  ghost predicate Corrected(e: Env, data: Bytes, data': Bytes, p: nat) {
    && InBounds(e, data, p) && |data'| == |data|
    && WordAt(data', p) == FixupAddr(e.h, WordAt(data, p))
    && WordAt(data', p + 4) == WordAt(data, p + 4)
    && (Relocates(data, p) ==>
          var t := Target(e, data, p); WordAt(data', t) == FixupAddr(e.h, WordAt(data, t)))
  }

  lemma EntryCorrected(e: Env, data: Bytes, p: nat)
    requires InBounds(e, data, p) && TargetClear(e, data, p, p)
    ensures var d := RemapEntry(e, data, p);
            && Corrected(e, data, d, p)
            && forall k :: 0 <= k < |data| && !Touches(e, data, p, k) ==> d[k] == data[k]
  {
    hide WordAt, SetWord;
    var t := Target(e, data, p);
    var d := if Relocates(data, p) then SetWord(data, t, FixupAddr(e.h, WordAt(data, t))) else data;
    var r := SetWord(d, p, FixupAddr(e.h, WordAt(d, p)));
    if Relocates(data, p) {
      SetWordAt(data, t, FixupAddr(e.h, WordAt(data, t)));
      SameWord(r, d, t);
    }
    SameWord(d, data, p);
    SameWord(r, data, p + 4);
    SetWordAt(d, p, FixupAddr(e.h, WordAt(d, p)));
  }

  /** An entry none of whose words is touched looks the same. */
  lemma EntryUntouched(e: Env, data: Bytes, d: Bytes, q: nat)
    requires InBounds(e, data, q) && |d| == |data|
    requires forall k :: q <= k < q + 8 ==> d[k] == data[k]
    requires Relocates(data, q) ==> forall k :: Target(e, data, q) <= k < Target(e, data, q) + 4 ==> d[k] == data[k]
    ensures InBounds(e, d, q) && Relocates(d, q) == Relocates(data, q) && WordAt(d, q) == WordAt(data, q)
    ensures WordAt(d, q + 4) == WordAt(data, q + 4) && Target(e, d, q) == Target(e, data, q)
    ensures Relocates(data, q) ==> WordAt(d, Target(e, data, q)) == WordAt(data, Target(e, data, q))
  {
    SameWord(d, data, q);
    SameWord(d, data, q + 4);
    if Relocates(data, q) { SameWord(d, data, Target(e, data, q)); }
  }

  ghost predicate TouchedBy(e: Env, data: Bytes, ps: seq<nat>, n: nat, k: nat)
    requires n <= |ps| && forall i :: 0 <= i < |ps| ==> InBounds(e, data, ps[i])
  {
    exists i :: 0 <= i < n && Touches(e, data, ps[i], k)
  }

  /** The file after the first n entries. */
  ghost predicate Progress(e: Env, data: Bytes, ps: seq<nat>, n: nat, d: Bytes)
    requires n <= |ps| && forall i :: 0 <= i < |ps| ==> InBounds(e, data, ps[i])
  {
    && |d| == |data|
    && (forall i :: 0 <= i < n ==> Corrected(e, data, d, ps[i]))
    && (forall k :: 0 <= k < |data| && !TouchedBy(e, data, ps, n, k) ==> d[k] == data[k])
  }

  /** The words of an entry are still as they were as long as its turn has not come. */
  lemma LaterUntouched(e: Env, data: Bytes, ps: seq<nat>, n: nat, d: Bytes, m: nat)
    requires n <= m < |ps| && Separate(e, data, ps) && Progress(e, data, ps, n, d)
    ensures var q := ps[m];
            && InBounds(e, d, q) && Relocates(d, q) == Relocates(data, q) && WordAt(d, q) == WordAt(data, q)
            && WordAt(d, q + 4) == WordAt(data, q + 4) && Target(e, d, q) == Target(e, data, q)
            && (Relocates(data, q) ==> WordAt(d, Target(e, data, q)) == WordAt(data, Target(e, data, q)))
  {
    hide WordAt, Resolve, FixupAddr, Corrected, Relocates, Target;
    var q := ps[m];
    forall k | q <= k < q + 8 ensures d[k] == data[k] {
      forall i | 0 <= i < n ensures !Touches(e, data, ps[i], k) {
        assert TargetClear(e, data, ps[i], ps[m]);
      }
    }
    if Relocates(data, q) {
      forall k | Target(e, data, q) <= k < Target(e, data, q) + 4 ensures d[k] == data[k] {
        forall i | 0 <= i < n ensures !Touches(e, data, ps[i], k) {
          assert TargetClear(e, data, ps[m], ps[i]) && TargetsApart(e, data, ps[i], ps[m]);
        }
      }
    }
    EntryUntouched(e, data, d, q);
  }

  /** Entries already corrected stay corrected. */
  lemma EarlierKept(e: Env, data: Bytes, ps: seq<nat>, n: nat, d: Bytes, d': Bytes, i: nat)
    requires i < n < |ps| && Separate(e, data, ps) && Corrected(e, data, d, ps[i]) && |d'| == |d|
    requires forall k :: 0 <= k < |data| && !Touches(e, data, ps[n], k) ==> d'[k] == d[k]
    ensures Corrected(e, data, d', ps[i])
  {
    hide WordAt, Resolve, FixupAddr, Relocates, Target;
    assert TargetClear(e, data, ps[n], ps[i]) && TargetClear(e, data, ps[i], ps[n]) && TargetsApart(e, data, ps[i], ps[n]);
    SameWord(d', d, ps[i]);
    SameWord(d', d, ps[i] + 4);
    if Relocates(data, ps[i]) {
      SameWord(d', d, Target(e, data, ps[i]));
    }
  }

  lemma ProgressStep(e: Env, data: Bytes, ps: seq<nat>, n: nat, d: Bytes)
    requires n < |ps| && Separate(e, data, ps) && Progress(e, data, ps, n, d)
    ensures Progress(e, data, ps, n + 1, RemapEntry(e, d, ps[n]))
  {
    hide WordAt, Resolve, FixupAddr, RemapEntry;
    var q := ps[n];
    var d' := RemapEntry(e, d, q);
    LaterUntouched(e, data, ps, n, d, n);
    assert TargetClear(e, data, q, q);
    EntryCorrected(e, d, q);
    forall k ensures Touches(e, d, q, k) == Touches(e, data, q, k) {}
    forall i | 0 <= i < n + 1 ensures Corrected(e, data, d', ps[i]) {
      if i < n { EarlierKept(e, data, ps, n, d, d', i); }
    }
    forall k | 0 <= k < |data| && !TouchedBy(e, data, ps, n + 1, k) ensures d'[k] == data[k] {
      assert !TouchedBy(e, data, ps, n, k);
    }
  }

  lemma {:induction false} RemapProgress(e: Env, data: Bytes, ps: seq<nat>, n: nat)
    requires n <= |ps| && Separate(e, data, ps)
    ensures Progressing(e, data, ps, n, RemapEntries(e, data, ps[..n]))
  {
    hide RemapEntry, RemapEntries, Progressing;
    if n == 0 {
      assert ps[..0] == [];
      NothingLeft(e, data, []);
      NoProgress(e, data, ps);
    } else {
      var before := RemapEntries(e, data, ps[..n - 1]);
      RemapProgress(e, data, ps, n - 1);
      RelStep(e, data, ps, n - 1, before);
      assert ps[..n] == ps[..n - 1] + [ps[n - 1]];
      RemapEntriesAppend(e, data, ps[..n - 1], [ps[n - 1]]);
      RemapOne(e, before, ps[n - 1]);
    }
  }

  lemma RemapOne(e: Env, data: Bytes, p: nat)
    ensures RemapEntries(e, data, [p]) == RemapEntry(e, data, p)
  {
    assert [p][1..] == [];
  }

  /** Every entry and every target word of a table is corrected exactly once, and no other byte of
      the file changes. */
  lemma TableCorrectedOnce(e: Env, data: Bytes, ps: seq<nat>)
    requires Separate(e, data, ps)
    ensures var d := RemapEntries(e, data, ps);
            && (forall i :: 0 <= i < |ps| ==> Corrected(e, data, d, ps[i]))
            && (forall k :: 0 <= k < |data| && !TouchedBy(e, data, ps, |ps|, k) ==> d[k] == data[k])
  {
    hide RemapEntries, Corrected, TouchedBy;
    RemapProgress(e, data, ps, |ps|);
    assert ps[..|ps|] == ps;
  }

  // ---------- remap_rel_section and remap_dynamic ----------

  /** Where the entries of a table are. An entry size of 0 would keep the C loop going for ever. */
  function Positions(rel: nat, end: nat, entrySize: nat): seq<nat>
    requires entrySize > 0 || rel >= end
    decreases end - rel
  {
    if rel >= end then [] else [rel] + Positions(rel + entrySize, end, entrySize)
  }

  method RemapRelSection(e: Env, file: array<Byte>, rel: nat, size: nat, entrySize: nat)
    requires entrySize > 0 || size == 0
    requires Separate(e, file[..], Positions(rel, rel + size, entrySize))
    modifies file
    ensures file[..] == RemapEntries(e, old(file[..]), Positions(rel, rel + size, entrySize))
  {
    hide RemapEntry, RemapEntries, Progress, Separate, InBounds;
    ghost var data := file[..];
    ghost var all := Positions(rel, rel + size, entrySize);
    NoProgress(e, data, all);
    ghost var n := 0;
    var p := rel;
    assert all[0..] == all;
    while p < rel + size
      invariant n <= |all| && all[n..] == Positions(p, rel + size, entrySize)
      invariant RemapEntries(e, file[..], all[n..]) == RemapEntries(e, data, all)
      invariant Progressing(e, data, all, n, file[..])
      decreases rel + size - p
    {
      assert all[n..][0] == all[n] && all[n..][1..] == all[n + 1..];
      RelStep(e, data, all, n, file[..]);
      RemapRelEntry(e, file, p);
      p := p + entrySize;
      n := n + 1;
    }
    NothingLeft(e, file[..], all[n..]);
  }

  lemma NothingLeft(e: Env, d: Bytes, ps: seq<nat>)
    requires ps == []
    ensures RemapEntries(e, d, ps) == d
  {
  }

  lemma NoProgress(e: Env, data: Bytes, ps: seq<nat>)
    requires Separate(e, data, ps)
    ensures Progressing(e, data, ps, 0, data)
  {
  }

  ghost predicate Progressing(e: Env, data: Bytes, ps: seq<nat>, n: nat, d: Bytes) {
    n <= |ps| && Separate(e, data, ps) && Progress(e, data, ps, n, d)
  }

  /** The next entry of a table can be processed where it stands. */
  lemma RelStep(e: Env, data: Bytes, ps: seq<nat>, n: nat, d: Bytes)
    requires n < |ps| && Progressing(e, data, ps, n, d)
    ensures InBounds(e, d, ps[n]) && Progressing(e, data, ps, n + 1, RemapEntry(e, d, ps[n]))
    ensures RemapEntries(e, d, ps[n..]) == RemapEntries(e, RemapEntry(e, d, ps[n]), ps[n + 1..])
  {
    hide RemapEntry, Progress, Separate, WordAt;
    assert ps[n..][0] == ps[n] && ps[n..][1..] == ps[n + 1..];
    LaterUntouched(e, data, ps, n, d, n);
    ProgressStep(e, data, ps, n, d);
  }

  /** One entry, in place. */
  method RemapRelEntry(e: Env, file: array<Byte>, p: nat)
    requires InBounds(e, file[..], p)
    modifies file
    ensures file[..] == RemapEntry(e, old(file[..]), p)
  {
    var info := ReadWord(file, p + 4);
    var kind := info % 256;
    if kind == R_386_RELATIVE || kind == R_386_JMP_SLOT {
      var rOffset := ReadWord(file, p);
      var offset := VmaToOffsetLoop(e.sections, rOffset);
      var w := ReadWord(file, offset);
      WriteWord(file, offset, FixupAddr(e.h, w));
    }
    var w := ReadWord(file, p);
    WriteWord(file, p, FixupAddr(e.h, w));
  }

  method ReadWord(file: array<Byte>, p: nat) returns (w: Word)
    requires p + 4 <= file.Length
    ensures w == WordAt(file[..], p)
  {
    PowSizes();
    assert file[..][p..p + 4] == file[p..p + 4];
    w := DecodeLE(file[p..p + 4]);
  }

  method WriteWord(file: array<Byte>, p: nat, w: Word)
    requires p + 4 <= file.Length
    modifies file
    ensures file[..] == SetWord(old(file[..]), p, w)
  {
    var bs := EncodeLE(4, w);
    file[p], file[p + 1], file[p + 2], file[p + 3] := bs[0], bs[1], bs[2], bs[3];
  }

  /** get_dynamic_val: the first entry with the tag, or 0. */
  function DynamicVal(dyn: seq<Dyn<Word>>, tag: int): Word {
    if dyn == [] || dyn[0].tag == DT_NULL then 0
    else if dyn[0].tag == tag then dyn[0].val
    else DynamicVal(dyn[1..], tag)
  }

  /** v is the value of the first entry with the tag, or 0 when no entry has it. */
  ghost predicate IsValue(dyn: seq<Dyn<Word>>, tag: int, v: Word) {
    || (exists i :: 0 <= i < Entries(dyn) && dyn[i].tag == tag && dyn[i].val == v && forall k :: 0 <= k < i ==> dyn[k].tag != tag)
    || (v == 0 && forall k :: 0 <= k < Entries(dyn) ==> dyn[k].tag != tag)
  }

  lemma {:induction false} DynamicValIs(dyn: seq<Dyn<Word>>, tag: int, v: Word)
    requires tag != DT_NULL
    ensures IsValue(dyn, tag, v) <==> DynamicVal(dyn, tag) == v
  {
    if dyn != [] && dyn[0].tag != DT_NULL && dyn[0].tag != tag {
      var rest := dyn[1..];
      DynamicValIs(rest, tag, v);
      assert Entries(dyn) == 1 + Entries(rest);
      if IsValue(dyn, tag, v) && exists i :: 0 <= i < Entries(dyn) && dyn[i].tag == tag {
        var i :| 0 <= i < Entries(dyn) && dyn[i].tag == tag && dyn[i].val == v && forall k :: 0 <= k < i ==> dyn[k].tag != tag;
        assert rest[i - 1].tag == tag;
        forall k | 0 <= k < i - 1 ensures rest[k].tag != tag { assert dyn[k + 1].tag != tag; }
      } else if IsValue(dyn, tag, v) {
        forall k | 0 <= k < Entries(rest) ensures rest[k].tag != tag { assert dyn[k + 1].tag != tag; }
      }
    } else if dyn != [] && dyn[0].tag == tag {
      assert dyn[0].tag == tag;
    }
  }

  /** What becomes of an entry in front of DT_NULL, by the numbers of the System V ABI and of the GNU extensions: 10 is
      DT_STRSZ, then come DT_PLTGOT, DT_HASH, DT_STRTAB, DT_RELA, DT_INIT, DT_FINI, DT_REL, DT_JMPREL, DT_VERSYM, DT_VERDEF
      and DT_VERNEED. */
  predicate EntryRewritten(h: Hole, newSize: Word, d: Dyn<Word>, d': Dyn<Word>) {
    && d'.tag == d.tag
    && d'.val == if d.tag == 10 then newSize
                 else if d.tag in {3, 4, 5, 7, 12, 13, 17, 23, 0x6ffffff0, 0x6ffffffc, 0x6ffffffe} then FixupAddr(h, d.val)
                 else d.val
  }

  ghost predicate DynamicRewritten(h: Hole, newSize: Word, dyn: seq<Dyn<Word>>, dyn': seq<Dyn<Word>>) {
    && |dyn'| == |dyn|
    && forall i :: 0 <= i < |dyn| ==> if i < Entries(dyn) then EntryRewritten(h, newSize, dyn[i], dyn'[i]) else dyn'[i] == dyn[i]
  }

  /** What a loader finds in the rewritten dynamic section as the address of the string table and as its size. */
  lemma {:induction false} StrtabRewritten(h: Hole, newSize: Word, dyn: seq<Dyn<Word>>, dyn': seq<Dyn<Word>>)
    requires DynamicRewritten(h, newSize, dyn, dyn')
    ensures Entries(dyn') == Entries(dyn)
    ensures DynamicVal(dyn', 5) == FixupAddr(h, DynamicVal(dyn, 5))
    ensures DynamicVal(dyn', 10) == if exists i :: 0 <= i < Entries(dyn) && dyn[i].tag == 10 then newSize else 0
  {
    if dyn != [] {
      assert Entries(dyn) > 0 ==> EntryRewritten(h, newSize, dyn[0], dyn'[0]);
      if Entries(dyn) > 0 {
        StrtabRewritten(h, newSize, dyn[1..], dyn'[1..]);
        assert forall i :: 0 <= i < Entries(dyn[1..]) ==> dyn[1..][i] == dyn[i + 1];
        if i :| 0 < i < Entries(dyn) && dyn[i].tag == 10 { assert dyn[1..][i - 1].tag == 10; }
      }
    }
  }

  lemma {:induction false} DynamicValSame(dyn: seq<Dyn<Word>>, dyn': seq<Dyn<Word>>, tag: int)
    requires |dyn| == |dyn'|
    requires forall i :: 0 <= i < |dyn| ==> dyn'[i].tag == dyn[i].tag && (dyn[i].tag == tag ==> dyn'[i].val == dyn[i].val)
    ensures DynamicVal(dyn', tag) == DynamicVal(dyn, tag)
  {
    if dyn != [] { DynamicValSame(dyn[1..], dyn'[1..], tag); }
  }

  /** The table whose entries are of the kind of the jump-slot table's: DT_REL or DT_RELA. */
  function MainTag(dyn: seq<Dyn<Word>>): int {
    if DynamicVal(dyn, DT_PLTREL) == DT_REL then DT_REL else DT_RELA
  }

  function TableSize(dyn: seq<Dyn<Word>>, tag: int): Word {
    if tag == DT_REL then DynamicVal(dyn, DT_RELSZ)
    else if tag == DT_RELA then DynamicVal(dyn, DT_RELASZ)
    else if tag == DT_JMPREL then DynamicVal(dyn, DT_PLTRELSZ)
    else 0
  }

  function EntrySize(dyn: seq<Dyn<Word>>, tag: int): Word {
    if tag == DT_REL || (tag == DT_JMPREL && MainTag(dyn) == DT_REL) then DynamicVal(dyn, DT_RELENT)
    else DynamicVal(dyn, DT_RELAENT)
  }

  /** Whether DT_JMPREL is left to the main table: the program looks at where the jump-slot table starts, and decides
      before anything changes. */
  predicate LeftToMain(dyn: seq<Dyn<Word>>) {
    var start := DynamicVal(dyn, MainTag(dyn));
    start <= DynamicVal(dyn, DT_JMPREL) < Add(start, TableSize(dyn, MainTag(dyn)))
  }

  /** No table that has entries has an entry size of 0. */
  predicate Terminates(dyn: seq<Dyn<Word>>) {
    forall i :: 0 <= i < |dyn| ==> TableSize(dyn, dyn[i].tag) == 0 || EntrySize(dyn, dyn[i].tag) > 0
  }

  /** The relocation entries processed on account of one dynamic entry. */
  function EntryPositions(e: Env, dyn: seq<Dyn<Word>>, d: Dyn<Word>): seq<nat>
    requires TableSize(dyn, d.tag) == 0 || EntrySize(dyn, d.tag) > 0
  {
    var t := VmaToOffset(e.sections, d.val);
    if d.tag == DT_JMPREL && LeftToMain(dyn) then []
    else Positions(t, t + TableSize(dyn, d.tag), EntrySize(dyn, d.tag))
  }

  function AllPositions(e: Env, dyn: seq<Dyn<Word>>, n: nat): seq<nat>
    requires n <= |dyn| && Terminates(dyn)
  {
    if n == 0 then [] else AllPositions(e, dyn, n - 1) + EntryPositions(e, dyn, dyn[n - 1])
  }

  lemma {:induction false} AllPositionsPrefix(e: Env, dyn: seq<Dyn<Word>>, i: nat, n: nat)
    requires i <= n <= |dyn| && Terminates(dyn)
    ensures AllPositions(e, dyn, i) <= AllPositions(e, dyn, n)
    decreases n
  {
    hide EntryPositions, Terminates, TableSize, EntrySize;
    if i < n {
      TerminatesAt(dyn, n - 1);
      AllPositionsPrefix(e, dyn, i, n - 1);
    }
  }

  /** A later stretch of the list, in the file as it is when its turn comes. */
  lemma SeparateLater(e: Env, data: Bytes, ps: seq<nat>, n: nat, m: nat, d: Bytes)
    requires n <= m <= |ps| && Progressing(e, data, ps, n, d)
    ensures Separate(e, d, ps[n..m])
  {
    hide WordAt, Resolve, Relocates, Target, Progress;
    var sub := ps[n..m];
    forall i | 0 <= i < |sub|
      ensures InBounds(e, d, sub[i]) && Relocates(d, sub[i]) == Relocates(data, ps[n + i])
              && Target(e, d, sub[i]) == Target(e, data, ps[n + i])
    {
      LaterUntouched(e, data, ps, n, d, n + i);
    }
    forall i, j | 0 <= i < |sub| && 0 <= j < |sub| ensures TargetClear(e, d, sub[i], sub[j]) {
      assert TargetClear(e, data, ps[n + i], ps[n + j]);
    }
    forall i, j | 0 <= i < j < |sub|
      ensures (sub[i] + 8 <= sub[j] || sub[j] + 8 <= sub[i]) && TargetsApart(e, d, sub[i], sub[j])
    {
      assert TargetsApart(e, data, ps[n + i], ps[n + j]);
    }
  }

  /** The dynamic section after the first n entries. */
  ghost predicate Rewriting(h: Hole, newSize: Word, dyn: seq<Dyn<Word>>, now: seq<Dyn<Word>>, n: nat) {
    && n <= |dyn| == |now|
    && (forall i :: 0 <= i < n ==> EntryRewritten(h, newSize, dyn[i], now[i]))
    && (forall i :: n <= i < |dyn| ==> now[i] == dyn[i])
  }

  /** The entries whose address is shifted and nothing else done. */
  predicate JustShifted(tag: int) {
    tag in {DT_PLTGOT, DT_HASH, DT_STRTAB, DT_INIT, DT_FINI, DT_VERDEF, DT_VERNEED, DT_VERSYM}
  }

  lemma RewritingStep(h: Hole, newSize: Word, dyn: seq<Dyn<Word>>, now: seq<Dyn<Word>>, n: nat)
    requires n < |dyn| && Rewriting(h, newSize, dyn, now, n)
    ensures now[n] == dyn[n]
    ensures TableSize(now, dyn[n].tag) == TableSize(dyn, dyn[n].tag) && EntrySize(now, dyn[n].tag) == EntrySize(dyn, dyn[n].tag)
    ensures var d := dyn[n];
            var d' := if d.tag == DT_STRSZ then d.(val := newSize)
                      else if d.tag in {DT_REL, DT_RELA, DT_JMPREL} || JustShifted(d.tag) then d.(val := FixupAddr(h, d.val))
                      else d;
            Rewriting(h, newSize, dyn, now[n := d'], n + 1)
  {
    hide FixupAddr;
    TableSame(dyn, now, dyn[n].tag);
  }

  /** remap_dynamic for an i386 file: addresses in the dynamic section are shifted, the string table size is replaced, and
      the relocation tables are processed on the way. */
  method RemapDynamic(e: Env, file: array<Byte>, dynamic: array<Dyn<Word>>, newSize: Word)
    requires Terminates(dynamic[..])
    requires Separate(e, file[..], AllPositions(e, dynamic[..], Entries(dynamic[..])))
    modifies file, dynamic
    ensures DynamicRewritten(e.h, newSize, old(dynamic[..]), dynamic[..])
    ensures file[..] == RemapEntries(e, old(file[..]), old(AllPositions(e, dynamic[..], Entries(dynamic[..]))))
  {
    hide RemapEntries, Separate, Resolve, AllPositions, Positions, Terminates, TableSize, EntrySize, LeftToMain,
         DynamicVal, VmaToOffset, FixupAddr, Add, Rewriting, JustShifted;
    ghost var dyn, data := dynamic[..], file[..];
    ghost var n := Entries(dyn);
    var mainStart, mainSize := DynamicVal(dynamic[..], DT_RELA), DynamicVal(dynamic[..], DT_RELASZ);
    if DynamicVal(dynamic[..], DT_PLTREL) == DT_REL {
      mainStart, mainSize := DynamicVal(dynamic[..], DT_REL), DynamicVal(dynamic[..], DT_RELSZ);
    }
    var jmprelStart := DynamicVal(dynamic[..], DT_JMPREL);
    var overlaps := jmprelStart >= mainStart && jmprelStart < Add(mainStart, mainSize);
    OverlapTest(dyn);
    var i := 0;
    AllPositionsNone(e, data, dyn);
    NothingRewritten(e.h, newSize, dyn);
    while i < dynamic.Length && dynamic[i].tag != DT_NULL
      invariant 0 <= i <= n
      invariant Rewriting(e.h, newSize, dyn, dynamic[..], i)
      invariant file[..] == RemapEntries(e, data, AllPositions(e, dyn, i))
    {
      var d := dynamic[i];
      ghost var now := dynamic[..];
      RewritingStep(e.h, newSize, dyn, now, i);
      TerminatesAt(dyn, i);
      StretchReady(e, data, dyn, n, i, file[..]);
      if d.tag == DT_STRSZ {
        dynamic[i] := d.(val := newSize);
      } else if d.tag == DT_REL || d.tag == DT_RELA {
        var rel := VmaToOffsetLoop(e.sections, d.val);
        RemapRelSection(e, file, rel, TableSize(dynamic[..], d.tag), EntrySize(dynamic[..], d.tag));
        dynamic[i] := d.(val := FixupAddr(e.h, d.val));
      } else if d.tag == DT_JMPREL {
        if !overlaps {
          var rel := VmaToOffsetLoop(e.sections, d.val);
          RemapRelSection(e, file, rel, TableSize(dynamic[..], d.tag), EntrySize(dynamic[..], d.tag));
        }
        dynamic[i] := d.(val := FixupAddr(e.h, d.val));
      } else if JustShifted(d.tag) {
        dynamic[i] := d.(val := FixupAddr(e.h, d.val));
      }
      assert dynamic[..] == now[i := dynamic[i]];
      i := i + 1;
    }
    RewritingDone(e.h, newSize, dyn, dynamic[..], i);
  }

  lemma NothingRewritten(h: Hole, newSize: Word, dyn: seq<Dyn<Word>>)
    ensures Rewriting(h, newSize, dyn, dyn, 0)
  {
  }

  lemma RewritingDone(h: Hole, newSize: Word, dyn: seq<Dyn<Word>>, now: seq<Dyn<Word>>, n: nat)
    requires Rewriting(h, newSize, dyn, now, n) && (n == |dyn| || now[n].tag == DT_NULL) && n <= Entries(dyn)
    ensures n == Entries(dyn) && DynamicRewritten(h, newSize, dyn, now)
  {
  }

  lemma OverlapTest(dyn: seq<Dyn<Word>>)
    ensures LeftToMain(dyn) <==>
              if DynamicVal(dyn, DT_PLTREL) == DT_REL
              then DynamicVal(dyn, DT_REL) <= DynamicVal(dyn, DT_JMPREL) < Add(DynamicVal(dyn, DT_REL), DynamicVal(dyn, DT_RELSZ))
              else DynamicVal(dyn, DT_RELA) <= DynamicVal(dyn, DT_JMPREL) < Add(DynamicVal(dyn, DT_RELA), DynamicVal(dyn, DT_RELASZ))
  {
  }

  /** Sizes read in the middle of the loop are those there were. */
  lemma TableSame(dyn: seq<Dyn<Word>>, dyn': seq<Dyn<Word>>, tag: int)
    requires |dyn| == |dyn'|
    requires forall i :: 0 <= i < |dyn| ==> dyn'[i].tag == dyn[i].tag
    requires forall i :: 0 <= i < |dyn| &&
                         dyn[i].tag in {DT_RELSZ, DT_RELENT, DT_RELASZ, DT_RELAENT, DT_PLTRELSZ, DT_PLTREL} ==>
               dyn'[i].val == dyn[i].val
    ensures TableSize(dyn', tag) == TableSize(dyn, tag) && EntrySize(dyn', tag) == EntrySize(dyn, tag)
  {
    DynamicValSame(dyn, dyn', DT_RELSZ);
    DynamicValSame(dyn, dyn', DT_RELENT);
    DynamicValSame(dyn, dyn', DT_RELASZ);
    DynamicValSame(dyn, dyn', DT_RELAENT);
    DynamicValSame(dyn, dyn', DT_PLTRELSZ);
    DynamicValSame(dyn, dyn', DT_PLTREL);
  }

  lemma TerminatesAt(dyn: seq<Dyn<Word>>, i: nat)
    requires Terminates(dyn) && i < |dyn|
    ensures TableSize(dyn, dyn[i].tag) == 0 || EntrySize(dyn, dyn[i].tag) > 0
  {
  }

  lemma AllPositionsNone(e: Env, data: Bytes, dyn: seq<Dyn<Word>>)
    requires Terminates(dyn)
    ensures RemapEntries(e, data, AllPositions(e, dyn, 0)) == data
  {
  }

  /** Dynamic entry i finds its table ready to be processed, and processing it extends the list. */
  lemma StretchReady(e: Env, data: Bytes, dyn: seq<Dyn<Word>>, n: nat, i: nat, d: Bytes)
    requires i < n <= |dyn| && Terminates(dyn) && Separate(e, data, AllPositions(e, dyn, n))
    requires d == RemapEntries(e, data, AllPositions(e, dyn, i))
    ensures TableSize(dyn, dyn[i].tag) == 0 || EntrySize(dyn, dyn[i].tag) > 0
    ensures Separate(e, d, EntryPositions(e, dyn, dyn[i]))
    ensures RemapEntries(e, data, AllPositions(e, dyn, i + 1)) == RemapEntries(e, d, EntryPositions(e, dyn, dyn[i]))
    ensures dyn[i].tag !in {DT_REL, DT_RELA, DT_JMPREL} || (dyn[i].tag == DT_JMPREL && LeftToMain(dyn)) ==>
              RemapEntries(e, data, AllPositions(e, dyn, i + 1)) == d
  {
    hide Separate, Resolve, Progressing, EntryPositions, RemapEntries, Terminates, TableSize, EntrySize;
    TerminatesAt(dyn, i);
    var all, before, after := AllPositions(e, dyn, n), AllPositions(e, dyn, i), AllPositions(e, dyn, i + 1);
    AllPositionsPrefix(e, dyn, i + 1, n);
    assert all[..|before|] == before;
    assert all[|before|..|after|] == EntryPositions(e, dyn, dyn[i]);
    RemapProgress(e, data, all, |before|);
    SeparateLater(e, data, all, |before|, |after|, d);
    RemapEntriesAppend(e, data, before, EntryPositions(e, dyn, dyn[i]));
    NoPositions(e, dyn, dyn[i]);
    if EntryPositions(e, dyn, dyn[i]) == [] { NothingLeft(e, d, []); }
  }

  lemma NoPositions(e: Env, dyn: seq<Dyn<Word>>, d: Dyn<Word>)
    requires TableSize(dyn, d.tag) == 0 || EntrySize(dyn, d.tag) > 0
    ensures d.tag !in {DT_REL, DT_RELA, DT_JMPREL} || (d.tag == DT_JMPREL && LeftToMain(dyn)) ==> EntryPositions(e, dyn, d) == []
  {
  }

  // ---------- the two tables of relocations ----------

  function Count(s: seq<nat>, p: nat): nat {
    multiset(s)[p]
  }

  lemma CountAppend(a: seq<nat>, b: seq<nat>, p: nat)
    ensures Count(a + b, p) == Count(a, p) + Count(b, p)
  {
  }

  lemma CountMore(q: nat, rest: seq<nat>, p: nat)
    ensures Count([q] + rest, p) == (if p == q then 1 else 0) + Count(rest, p)
  {
  }

  lemma MulMod(k: int, w: nat)
    requires w > 0
    ensures (k * w) % w == 0
  {
    var q, r := (k * w) / w, (k * w) % w;
    assert k * w == q * w + r;
    if k > q {
      TimesAtLeast(k - q, w);
    } else if k < q {
      TimesAtLeast(q - k, w);
    }
  }

  lemma TimesAtLeast(d: nat, w: nat)
    requires d > 0
    ensures d * w >= w
  {
  }

  lemma ModSum(a: int, b: int, w: nat)
    requires w > 0 && a % w == 0 && b % w == 0
    ensures (a + b) % w == 0 && (a - b) % w == 0
  {
    MulMod(a / w + b / w, w);
    MulMod(a / w - b / w, w);
    assert a + b == (a / w + b / w) * w;
    assert a - b == (a / w - b / w) * w;
  }

  /** p is where an entry of the table starts. */
  predicate At(start: nat, size: nat, w: nat, p: nat)
    requires w > 0
  {
    start <= p < start + size && (p - start) % w == 0
  }

  lemma {:induction false} PositionsCount(start: nat, size: nat, w: nat, p: nat)
    requires w > 0
    ensures Count(Positions(start, start + size, w), p) == if At(start, size, w, p) then 1 else 0
    decreases size
  {
    hide At, Count;
    if size > 0 {
      var rest := Positions(start + w, start + size, w);
      assert Positions(start, start + size, w) == [start] + rest;
      CountMore(start, rest, p);
      if size > w {
        PositionsCount(start + w, size - w, w, p);
      } else {
        assert rest == [];
        CountNone(p);
      }
      NextOnGrid(start, size, w, p);
    } else {
      CountNone(p);
      NoneAt(start, w, p);
    }
  }

  lemma NoneAt(start: nat, w: nat, p: nat)
    requires w > 0
    ensures !At(start, 0, w, p)
  {
  }

  /** An entry is the first one or one of the rest. */
  lemma NextOnGrid(start: nat, size: nat, w: nat, p: nat)
    requires w > 0 && size > 0
    ensures At(start, size, w, p) <==> p == start || (size > w && At(start + w, size - w, w, p))
    ensures size > w && p == start ==> !At(start + w, size - w, w, p)
  {
    MulMod(1, w);
    if p >= start + w && (p - start) % w == 0 { ModSum(p - start, w, w); }
    if p >= start + w && (p - start - w) % w == 0 { ModSum(p - start - w, w, w); }
    if start < p < start + w { Offgrid(p - start, w); }
  }

  lemma Offgrid(x: nat, w: nat)
    requires 0 < x < w
    ensures x % w != 0
  {
  }

  /** Two tables of the same kind of entries: the main one, and the jump-slot one. */
  datatype Tables = Tables(main: nat, mainSize: Word, jmp: nat, jmpSize: Word, w: Word)

  predicate OnOneGrid(t: Tables) {
    t.w > 0 && t.mainSize % t.w == 0 && t.jmpSize % t.w == 0 && (t.jmp - t.main) % t.w == 0
  }

  predicate IsEntry(t: Tables, p: nat)
    requires t.w > 0
  {
    At(t.main, t.mainSize, t.w, p) || At(t.jmp, t.jmpSize, t.w, p)
  }

  /** How often an entry is processed: the jump-slot table is left alone when it starts inside the main one. */
  function Times(t: Tables, p: nat): nat
    requires t.w > 0
  {
    (if At(t.main, t.mainSize, t.w, p) then 1 else 0) +
    (if !(t.main <= t.jmp < t.main + t.mainSize) && At(t.jmp, t.jmpSize, t.w, p) then 1 else 0)
  }

  predicate InsideOrApart(t: Tables) {
    || (t.main <= t.jmp && t.jmp + t.jmpSize <= t.main + t.mainSize)
    || t.jmp + t.jmpSize <= t.main || t.main + t.mainSize <= t.jmp || t.jmpSize == 0 || t.mainSize == 0
  }

  /** Looking only at where the jump-slot table starts processes every entry of the two tables
      exactly once if and only if that table lies inside the other one or apart from it. */
  lemma OnceIff(t: Tables)
    requires OnOneGrid(t)
    ensures (forall p :: IsEntry(t, p) ==> Times(t, p) == 1) <==> InsideOrApart(t)
  {
    if InsideOrApart(t) {
      forall p: nat | IsEntry(t, p) ensures Times(t, p) == 1 {
        if At(t.jmp, t.jmpSize, t.w, p) && t.main <= t.jmp { ModSum(p - t.jmp, t.jmp - t.main, t.w); }
      }
    } else if t.main <= t.jmp {
      var p := t.main + t.mainSize;
      ModSum(t.mainSize, t.jmp - t.main, t.w);
      assert IsEntry(t, p) && Times(t, p) == 0;
    } else {
      ModSum(0, t.jmp - t.main, t.w);
      assert IsEntry(t, t.main) && Times(t, t.main) == 2;
    }
  }

  /** The dynamic section names one main table and one jump-slot table, and no table of the other kind; the main table does
      not wrap around, and both are mapped with the same displacement. Tags by their numbers in the System V ABI: the main
      table is DT_REL (17) with DT_RELSZ (18) and DT_RELENT (19) if DT_PLTREL (20) says so, and otherwise DT_RELA (7) with
      DT_RELASZ (8) and DT_RELAENT (9); the jump-slot table is DT_JMPREL (23) with DT_PLTRELSZ (2). */
  ghost predicate Names(e: Env, dyn: seq<Dyn<Word>>, t: Tables, r: nat, j: nat) {
    var rel := IsValue(dyn, 20, 17);
    && r < Entries(dyn) && dyn[r].tag == (if rel then 17 else 7) && j < Entries(dyn) && dyn[j].tag == 23
    && (forall i :: 0 <= i < Entries(dyn) && i != r ==> dyn[i].tag != 17 && dyn[i].tag != 7)
    && (forall i :: 0 <= i < Entries(dyn) && i != j ==> dyn[i].tag != 23)
    && t.main == VmaToOffset(e.sections, dyn[r].val) && IsValue(dyn, if rel then 18 else 8, t.mainSize)
    && t.jmp == VmaToOffset(e.sections, dyn[j].val) && IsValue(dyn, 2, t.jmpSize) && IsValue(dyn, if rel then 19 else 9, t.w)
    && dyn[r].val + t.mainSize < MODULUS && t.jmp + dyn[r].val as int == t.main + dyn[j].val as int
  }

  lemma NamesRead(e: Env, dyn: seq<Dyn<Word>>, t: Tables, r: nat, j: nat)
    ensures Names(e, dyn, t, r, j) <==> Reads(e, dyn, t, r, j)
  {
    hide IsValue, DynamicVal, VmaToOffset, Entries;
    DynamicValIs(dyn, 20, 17);
    DynamicValIs(dyn, 18, t.mainSize);
    DynamicValIs(dyn, 8, t.mainSize);
    DynamicValIs(dyn, 19, t.w);
    DynamicValIs(dyn, 9, t.w);
    DynamicValIs(dyn, 2, t.jmpSize);
  }

  /** The same through get_dynamic_val. */
  ghost predicate Reads(e: Env, dyn: seq<Dyn<Word>>, t: Tables, r: nat, j: nat) {
    && r < Entries(dyn) && dyn[r].tag == MainTag(dyn) && j < Entries(dyn) && dyn[j].tag == DT_JMPREL
    && (forall i :: 0 <= i < Entries(dyn) && i != r ==> dyn[i].tag != DT_REL && dyn[i].tag != DT_RELA)
    && (forall i :: 0 <= i < Entries(dyn) && i != j ==> dyn[i].tag != DT_JMPREL)
    && t == Tables(VmaToOffset(e.sections, dyn[r].val), TableSize(dyn, MainTag(dyn)),
                   VmaToOffset(e.sections, dyn[j].val), TableSize(dyn, DT_JMPREL), EntrySize(dyn, DT_JMPREL))
    && dyn[r].val + t.mainSize < MODULUS && t.jmp + dyn[r].val as int == t.main + dyn[j].val as int
  }

  lemma {:induction false} DynamicValAt(dyn: seq<Dyn<Word>>, i: nat)
    requires i < Entries(dyn) && forall k :: 0 <= k < i ==> dyn[k].tag != dyn[i].tag
    ensures DynamicVal(dyn, dyn[i].tag) == dyn[i].val
  {
    if i > 0 { DynamicValAt(dyn[1..], i - 1); }
  }

  /** What is processed on account of one dynamic entry. */
  lemma EntryCount(e: Env, dyn: seq<Dyn<Word>>, t: Tables, r: nat, j: nat, i: nat, p: nat)
    requires Terminates(dyn) && Reads(e, dyn, t, r, j) && t.w > 0 && i < Entries(dyn)
    ensures TableSize(dyn, dyn[i].tag) == 0 || EntrySize(dyn, dyn[i].tag) > 0
    ensures Count(EntryPositions(e, dyn, dyn[i]), p) ==
              (if i == r && At(t.main, t.mainSize, t.w, p) then 1 else 0) +
              (if i == j && !(t.main <= t.jmp < t.main + t.mainSize) && At(t.jmp, t.jmpSize, t.w, p) then 1 else 0)
  {
    hide Positions, At, Terminates;
    TerminatesAt(dyn, i);
    DynamicValAt(dyn, r);
    DynamicValAt(dyn, j);
    PositionsCount(t.main, t.mainSize, t.w, p);
    PositionsCount(t.jmp, t.jmpSize, t.w, p);
    if i != r && i != j { NoPositions(e, dyn, dyn[i]); }
  }

  /** What the loop over the dynamic section processes is each entry as often as that. */
  lemma {:induction false} AllPositionsCount(e: Env, dyn: seq<Dyn<Word>>, t: Tables, r: nat, j: nat, n: nat, p: nat)
    requires Terminates(dyn) && Reads(e, dyn, t, r, j) && t.w > 0 && n <= Entries(dyn)
    ensures Count(AllPositions(e, dyn, n), p) ==
              (if r < n && At(t.main, t.mainSize, t.w, p) then 1 else 0) +
              (if j < n && !(t.main <= t.jmp < t.main + t.mainSize) && At(t.jmp, t.jmpSize, t.w, p) then 1 else 0)
  {
    hide EntryPositions, At, Terminates, Reads, TableSize, EntrySize, Count;
    if n == 0 {
      CountNone(p);
    } else {
      AllPositionsCount(e, dyn, t, r, j, n - 1, p);
      EntryCount(e, dyn, t, r, j, n - 1, p);
      CountAppend(AllPositions(e, dyn, n - 1), EntryPositions(e, dyn, dyn[n - 1]), p);
    }
  }

  lemma CountNone(p: nat)
    ensures Count([], p) == 0
  {
  }

  /** remap_dynamic processes every entry of both tables exactly once if and only if the jump-slot table lies inside the
      main one or apart from it. */
  lemma ProcessedOnceIff(e: Env, dyn: seq<Dyn<Word>>, t: Tables, r: nat, j: nat)
    requires Terminates(dyn) && Names(e, dyn, t, r, j) && OnOneGrid(t)
    ensures (forall p :: IsEntry(t, p) ==> Count(AllPositions(e, dyn, Entries(dyn)), p) == 1) <==> InsideOrApart(t)
    ensures forall p :: p in AllPositions(e, dyn, Entries(dyn)) ==> IsEntry(t, p)
    ensures forall p :: Count(AllPositions(e, dyn, Entries(dyn)), p) == Times(t, p)
  {
    hide Terminates, At, InsideOrApart, AllPositions, Entries;
    var all := AllPositions(e, dyn, Entries(dyn));
    NamesRead(e, dyn, t, r, j);
    forall p: nat ensures Count(all, p) == Times(t, p) && (p in all ==> IsEntry(t, p)) {
      AllPositionsCount(e, dyn, t, r, j, Entries(dyn), p);
      if p in all { assert Count(all, p) > 0; }
    }
    OnceIff(t);
  }

  /** The test fails on a jump-slot table that starts in front of the main one and runs into it. */
  function OverlappingTables(): seq<Dyn<Word>> {
    [Dyn(DT_REL, 100), Dyn(DT_RELSZ, 16), Dyn(DT_RELENT, 8), Dyn(DT_PLTREL, DT_REL), Dyn(DT_JMPREL, 92), Dyn(DT_PLTRELSZ, 16)]
  }

  lemma OverlappingValues()
    ensures var dyn := OverlappingTables();
            && Entries(dyn) == 6 && DynamicVal(dyn, DT_REL) == 100 && DynamicVal(dyn, DT_RELSZ) == 16
            && DynamicVal(dyn, DT_RELENT) == 8 && DynamicVal(dyn, DT_PLTREL) == DT_REL && DynamicVal(dyn, DT_JMPREL) == 92
            && DynamicVal(dyn, DT_PLTRELSZ) == 16
  {
    var d0 := OverlappingTables();
    var d1: seq<Dyn<Word>> := d0[1..];
    var d2: seq<Dyn<Word>> := d1[1..];
    var d3: seq<Dyn<Word>> := d2[1..];
    var d4: seq<Dyn<Word>> := d3[1..];
    var d5: seq<Dyn<Word>> := d4[1..];
    var d6: seq<Dyn<Word>> := d5[1..];
    assert d6 == [] && d5[0] == d0[5] && d4[0] == d0[4] && d3[0] == d0[3] && d2[0] == d0[2] && d1[0] == d0[1];
    assert Entries(d6) == 0 && Entries(d5) == 1 && Entries(d4) == 2 && Entries(d3) == 3 && Entries(d2) == 4 && Entries(d1) == 5;
  }

  /** The entry at 100, where the tables overlap, is processed twice; the one at 92 once. */
  lemma OverlapProcessedTwice(h: Hole)
    ensures var e := Env(h, [Shdr(60, 60, 100, 4)]);
            var dyn := OverlappingTables();
            && Terminates(dyn) && Entries(dyn) == 6 && Names(e, dyn, Tables(100, 16, 92, 16, 8), 0, 4)
            && Count(AllPositions(e, dyn, 6), 100) == 2 && Count(AllPositions(e, dyn, 6), 92) == 1
  {
    hide DynamicVal, Entries, AllPositions, Count;
    var e := Env(h, [Shdr(60, 60, 100, 4)]);
    var dyn, t := OverlappingTables(), Tables(100, 16, 92, 16, 8);
    OverlappingValues();
    assert VmaToOffset(e.sections, 100) == 100 && VmaToOffset(e.sections, 92) == 92;
    NamesRead(e, dyn, t, 0, 4);
    ProcessedOnceIff(e, dyn, t, 0, 4);
    assert Times(t, 100) == 2 && Times(t, 92) == 1;
  }

  /** Entries of the tables lie in the file, and their targets clear of the entries and of each other. */
  ghost predicate TargetsClear(e: Env, data: Bytes, t: Tables)
    requires t.w > 0
  {
    && (forall p :: IsEntry(t, p) ==> InBounds(e, data, p))
    && (forall p, q :: IsEntry(t, p) && IsEntry(t, q) ==> TargetClear(e, data, p, q))
    && (forall p, q :: IsEntry(t, p) && IsEntry(t, q) && p != q ==> TargetsApart(e, data, p, q))
  }

  lemma OccursOnce(s: seq<nat>, i: nat, k: nat)
    requires i < k < |s| && s[i] == s[k]
    ensures Count(s, s[i]) >= 2
  {
    assert s == s[..i] + [s[i]] + s[i + 1..];
    assert s[i + 1..][k - i - 1] == s[i];
  }

  lemma EntriesApart(t: Tables, p: nat, q: nat)
    requires OnOneGrid(t) && t.w >= 8 && IsEntry(t, p) && IsEntry(t, q) && p != q
    ensures p + 8 <= q || q + 8 <= p
  {
    ModSum(p - (if At(t.main, t.mainSize, t.w, p) then t.main else t.jmp), 0, t.w);
    OnMainGrid(t, p);
    OnMainGrid(t, q);
    ModSum(p - t.main, q - t.main, t.w);
    ModSum(q - t.main, p - t.main, t.w);
    if p < q < p + 8 { Offgrid(q - p, t.w); }
    if q < p < q + 8 { Offgrid(p - q, t.w); }
  }

  lemma OnMainGrid(t: Tables, p: nat)
    requires OnOneGrid(t) && IsEntry(t, p)
    ensures (p - t.main) % t.w == 0
  {
    if At(t.jmp, t.jmpSize, t.w, p) { ModSum(p - t.jmp, t.jmp - t.main, t.w); }
  }

  /** Processed once, entries of at least eight bytes keep out of each other's way. */
  lemma TablesSeparate(e: Env, data: Bytes, dyn: seq<Dyn<Word>>, t: Tables, r: nat, j: nat)
    requires Terminates(dyn) && Names(e, dyn, t, r, j) && OnOneGrid(t) && t.w >= 8 && InsideOrApart(t) && TargetsClear(e, data, t)
    ensures Separate(e, data, AllPositions(e, dyn, Entries(dyn)))
  {
    hide Terminates, Names, InsideOrApart, AllPositions, Entries, InBounds, TargetClear, TargetsApart, IsEntry,
         OnOneGrid, Times;
    ProcessedOnceIff(e, dyn, t, r, j);
    var all := AllPositions(e, dyn, Entries(dyn));
    forall i | 0 <= i < |all| ensures IsEntry(t, all[i]) { assert all[i] in all; }
    forall i, k | 0 <= i < k < |all|
      ensures (all[i] + 8 <= all[k] || all[k] + 8 <= all[i]) && TargetsApart(e, data, all[i], all[k])
    {
      if all[i] == all[k] { OccursOnce(all, i, k); }
      EntriesApart(t, all[i], all[k]);
    }
  }

  /** With the jump-slot table inside the main one or apart from it, remap_dynamic corrects every entry of both tables, and
      every target, exactly once, and changes no other byte. */
  lemma TablesCorrectedOnce(e: Env, data: Bytes, dyn: seq<Dyn<Word>>, t: Tables, r: nat, j: nat)
    requires Terminates(dyn) && Names(e, dyn, t, r, j) && OnOneGrid(t) && t.w >= 8 && InsideOrApart(t) && TargetsClear(e, data, t)
    ensures var d := RemapEntries(e, data, AllPositions(e, dyn, Entries(dyn)));
            && (forall p :: IsEntry(t, p) ==> Corrected(e, data, d, p))
            && (forall k :: 0 <= k < |data| && (forall p :: IsEntry(t, p) ==> !Touches(e, data, p, k)) ==> d[k] == data[k])
  {
    hide Terminates, Names, InsideOrApart, AllPositions, Entries, IsEntry, OnOneGrid, Times, RemapEntries, Corrected,
         Touches, InBounds, TargetClear, TargetsApart;
    var all := AllPositions(e, dyn, Entries(dyn));
    ProcessedOnceIff(e, dyn, t, r, j);
    TablesSeparate(e, data, dyn, t, r, j);
    TableCorrectedOnce(e, data, all);
    forall p | IsEntry(t, p) ensures Corrected(e, data, RemapEntries(e, data, all), p) {
      assert p in all by { assert Count(all, p) == 1; }
      var i :| 0 <= i < |all| && all[i] == p;
    }
    forall k | 0 <= k < |data| && (forall p :: IsEntry(t, p) ==> !Touches(e, data, p, k)) ensures !TouchedBy(e, data, all, |all|, k) {
      forall i | 0 <= i < |all| ensures !Touches(e, data, all[i], k) { assert all[i] in all; }
    }
  }

  // ---------- shifted addresses still lead to the same bytes ----------

  /** A loaded section: entirely in front of the hole or entirely behind it, in its addresses as in its offsets, or .dynstr,
      which is mapped at its own offset and in whose end the hole starts. */
  predicate Placed(h: Hole, s: Shdr) {
    && s.addr + s.size < MODULUS && s.offset + s.size < MODULUS
    && (|| (s.addr < h.index && s.addr + s.size <= h.index && s.offset < h.index && s.offset + s.size <= h.index)
        || (s.addr >= h.End() && s.offset >= h.End())
        || (s.addr == s.offset < h.index < s.offset + s.size && h.len <= s.size))
  }

  /** The hole reaches over the end of .dynstr into the padding behind it. */
  predicate Cut(h: Hole, s: Shdr) {
    s.offset < h.index < s.offset + s.size < h.End()
  }

  function Remapped(h: Hole, sections: seq<Shdr>): (r: seq<Shdr>)
    ensures |r| == |sections|
    ensures forall i :: 0 <= i < |r| ==> r[i] == RemapSection(h, sections[i])
  {
    if sections == [] then [] else [RemapSection(h, sections[0])] + Remapped(h, sections[1..])
  }

  predicate OutsideHole(h: Hole, p: int) { p < h.index || p >= h.End() }

  predicate Contains(s: Shdr, v: Word) {
    s.addr <= v < Add(s.addr, s.size)
  }

  /** The header of a loaded section after the rewrite. */
  lemma PlacedHeader(h: Hole, s: Shdr)
    requires 0 < h.index && h.End() < MODULUS && Placed(h, s)
    ensures s.addr + s.size < MODULUS && s.offset + s.size < MODULUS
    ensures var s' := RemapSection(h, s);
            if s.offset >= h.End() then
              s.addr >= h.End() && s'.addr == s.addr - h.len && s'.offset == s.offset - h.len && s'.size == s.size
            else if s.offset + s.size <= h.index then
              s.addr + s.size <= h.index && s'.addr == s.addr && s'.offset == s.offset && s'.size == s.size
            else
              s.addr == s.offset < h.index && h.len <= s.size && s'.addr == s.addr && s'.offset == s.offset
              && s'.size == s.size - h.len
  {
    hide FixupAddr, FixupOffset, FixupSize;
    AddrCases(h, s.addr);
    OffsetCases(h, s.offset, s.size);
  }

  /** One loaded section, before and after. */
  lemma PlacedSection(h: Hole, s: Shdr, v: Word)
    requires 0 < h.index && h.End() < MODULUS && Placed(h, s) && OutsideHole(h, v)
    ensures Contains(RemapSection(h, s), FixupAddr(h, v)) <==>
              Contains(s, v) && (Cut(h, s) ==> v < s.addr + s.size - h.len)
    ensures Contains(RemapSection(h, s), FixupAddr(h, v)) ==>
              var off, s' := Add(s.offset, Sub(v, s.addr)), RemapSection(h, s);
              OutsideHole(h, off) && Add(s'.offset, Sub(FixupAddr(h, v), s'.addr)) == FixupOffset(h, off)
  {
    hide FixupAddr, FixupOffset, RemapSection, Add, Sub, Placed;
    var s', v' := RemapSection(h, s), FixupAddr(h, v);
    PlacedHeader(h, s);
    PlainSection(s, v);
    AddrCases(h, v);
    PlainSection(s', v');
    if s'.addr <= v' < s'.addr + s'.size { OffsetCases(h, s.offset + (v - s.addr), 0); }
  }

  lemma OffsetCases(h: Hole, offset: Word, size: Word)
    requires h.End() < MODULUS && offset + size < MODULUS && OutsideHole(h, offset)
    requires offset < h.index < offset + size ==> h.len <= size
    ensures FixupOffset(h, offset) == if offset >= h.End() then offset - h.len else offset
    ensures FixupSize(h, offset, size) == if offset < h.index < offset + size then size - h.len else
                                          if offset == h.index < offset + size then Sub(size, h.len) else size
  {
    hide Sub, Add;
    AddExact(offset, size);
    if offset >= h.End() { SubExact(offset, h.len); }
    if offset < h.index < offset + size { SubExact(size, h.len); }
  }

  lemma AddrCases(h: Hole, a: Word)
    requires 0 < h.index && h.End() < MODULUS
    ensures OutsideHole(h, a) ==> FixupAddr(h, a) == if a >= h.End() then a - h.len else a
    ensures a >= h.index ==> FixupAddr(h, a) == Sub(a, h.len)
  {
  }

  lemma PlainSection(s: Shdr, v: Word)
    requires s.addr + s.size < MODULUS && s.offset + s.size < MODULUS
    ensures s.addr <= v < Add(s.addr, s.size) <==> s.addr <= v < s.addr + s.size
    ensures s.addr <= v < s.addr + s.size ==> Add(s.offset, Sub(v, s.addr)) == s.offset + (v - s.addr)
  {
  }

  /** The number of the first section that contains an address, or the number of sections. */
  function First(sections: seq<Shdr>, v: Word): (i: nat)
    ensures i <= |sections|
    ensures forall j :: 0 <= j < i ==> !Contains(sections[j], v)
    ensures i < |sections| ==> Contains(sections[i], v)
    ensures Resolve(sections, v) == if i < |sections| then Add(sections[i].offset, Sub(v, sections[i].addr)) else -1
  {
    if sections == [] || Contains(sections[0], v) then 0 else 1 + First(sections[1..], v)
  }

  lemma {:induction false} FirstIs(sections: seq<Shdr>, v: Word, i: nat)
    requires i <= |sections| && (forall j :: 0 <= j < i ==> !Contains(sections[j], v)) && (i < |sections| ==> Contains(sections[i], v))
    ensures First(sections, v) == i
  {
    if i > 0 { FirstIs(sections[1..], v, i - 1); }
  }

  /** The section that contains an address is a loaded one, and so is each listed before it, or it is an unloaded one at
      address 0. What is listed after it may be anything. */
  ghost predicate Loaded(h: Hole, sections: seq<Shdr>, v: Word) {
    var i := First(sections, v);
    (forall j :: 0 <= j < i ==> Placed(h, sections[j]) || sections[j].addr == 0) && (i < |sections| ==> Placed(h, sections[i]))
  }

  /** Unloaded sections listed before the one with the address do not reach up to the shifted address; and an address in
      .dynstr lies in front of what the rewritten size takes away. */
  ghost predicate StillFound(h: Hole, sections: seq<Shdr>, v: Word) {
    var i := First(sections, v);
    && (forall j :: 0 <= j < i && sections[j].addr == 0 ==> FixupAddr(h, v) >= RemapSection(h, sections[j]).size)
    && (i < |sections| && Cut(h, sections[i]) ==> v < sections[i].addr + sections[i].size - h.len)
  }

  /** Shifted and through the rewritten headers, an address resolves through the section it resolved through exactly under
      that condition, and then to where its byte is now. */
  lemma AddressFollows(h: Hole, sections: seq<Shdr>, v: Word)
    requires 0 < h.index && h.End() < MODULUS && OutsideHole(h, v) && Loaded(h, sections, v)
    ensures First(Remapped(h, sections), FixupAddr(h, v)) == First(sections, v) <==> StillFound(h, sections, v)
    ensures StillFound(h, sections, v) ==>
              var off, off' := Resolve(sections, v), Resolve(Remapped(h, sections), FixupAddr(h, v));
              && (off < 0 <==> off' < 0)
              && (off >= 0 ==> OutsideHole(h, off) && off' == FixupOffset(h, off))
  {
    hide FixupAddr, FixupOffset, Placed, RemapSection, OutsideHole, Contains, Resolve, First, Cut;
    var i, v' := First(sections, v), FixupAddr(h, v);
    var sections' := Remapped(h, sections);
    forall j | 0 <= j < i ensures Contains(sections'[j], v') <==> sections[j].addr == 0 && v' < sections'[j].size {
      if sections[j].addr == 0 { UnloadedSection(h, sections[j], v'); }
      if Placed(h, sections[j]) { PlacedSection(h, sections[j], v); }
    }
    if i < |sections| { PlacedSection(h, sections[i], v); }
    if StillFound(h, sections, v) { FirstIs(sections', v', i); }
  }

  lemma UnloadedSection(h: Hole, s: Shdr, v: Word)
    requires s.addr == 0
    ensures Contains(RemapSection(h, s), v) <==> v < RemapSection(h, s).size
  {
  }

  /** A word outside the hole moves as a whole. */
  lemma WordMoved(data: Bytes, h: Hole, p: Word)
    requires h.End() <= |data| < MODULUS && p + 4 <= |data| && (p + 4 <= h.index || p >= h.End())
    ensures FixupOffset(h, p) + 4 <= |Compacted(data, h)|
    ensures WordAt(Compacted(data, h), FixupOffset(h, p)) == WordAt(data, p)
  {
    var c, q := Compacted(data, h), FixupOffset(h, p);
    assert q == if p >= h.End() then p - h.len else p;
    var x, y := c[q..q + 4], data[p..p + 4];
    forall k | 0 <= k < |x| ensures x[k] == y[k] {
      assert c[q + k] == data[p + k];
    }
    assert x == y;
  }

  /** The whole correction of one relocation: in the finished file, the entry, found where its
      bytes moved to, holds a shifted address which the rewritten section headers resolve to the
      place where the target word moved to, and that word has been shifted once. */
  lemma RelocationFollows(e: Env, data: Bytes, ps: seq<nat>, i: nat)
    requires 0 < e.h.index && e.h.End() <= |data| < MODULUS && Separate(e, data, ps) && i < |ps|
    requires Relocates(data, ps[i]) && Resolve(e.sections, WordAt(data, ps[i])) >= 0
    requires OutsideHole(e.h, WordAt(data, ps[i]))
    requires Loaded(e.h, e.sections, WordAt(data, ps[i])) && StillFound(e.h, e.sections, WordAt(data, ps[i]))
    requires ps[i] + 8 <= e.h.index || ps[i] >= e.h.End()
    requires Target(e, data, ps[i]) + 4 <= e.h.index || Target(e, data, ps[i]) >= e.h.End()
    ensures var out := Compacted(RemapEntries(e, data, ps), e.h);
            var p := FixupOffset(e.h, ps[i]);
            && p + 4 <= |out|
            && var off := Resolve(Remapped(e.h, e.sections), WordAt(out, p));
            && 0 <= off && off + 4 <= |out|
            && off == FixupOffset(e.h, Target(e, data, ps[i]))
            && WordAt(out, off) == FixupAddr(e.h, WordAt(data, Target(e, data, ps[i])))
  {
    hide WordAt, Resolve, FixupAddr, FixupOffset, Separate, RemapEntries, Loaded, StillFound, Compacted, Remapped;
    var d := RemapEntries(e, data, ps);
    TableCorrectedOnce(e, data, ps);
    assert Corrected(e, data, d, ps[i]);
    WordMoved(d, e.h, ps[i]);
    WordMoved(d, e.h, Target(e, data, ps[i]));
    AddressFollows(e.h, e.sections, WordAt(data, ps[i]));
  }

  // ---------- the same through program headers ----------

  /** The segment has the address, and this many bytes of it in the file. */
  predicate Maps(p: Phdr, v: Word, n: nat) {
    p.vaddr <= v && v + n <= p.vaddr + p.filesz
  }

  /** Where a loader finds the byte of an address. */
  function FileAt(p: Phdr, v: Word): int {
    p.offset + (v - p.vaddr)
  }

  /** A segment entirely in front of the hole or entirely behind it, in its addresses as in its offsets, or mapped at its own
      offset around the hole. */
  predicate SegmentPlaced(h: Hole, p: Phdr) {
    && p.filesz <= p.memsz && p.vaddr + p.memsz < MODULUS && p.offset + p.filesz < MODULUS
    && (|| (p.vaddr < h.index && p.vaddr + p.memsz <= h.index && p.offset < h.index && p.offset + p.filesz <= h.index)
        || (p.vaddr >= h.End() && p.offset >= h.End())
        || Around(h, p))
  }

  predicate Around(h: Hole, p: Phdr) {
    p.vaddr == p.offset < h.index && h.End() <= p.offset + p.filesz
  }

  /** The header of such a segment after the rewrite. */
  lemma SegmentHeader(h: Hole, p: Phdr)
    requires 0 < h.index && h.End() < MODULUS && SegmentPlaced(h, p)
    ensures var p' := RemapSegment(h, p);
            && p'.paddr == p'.vaddr
            && p'.vaddr == (if p.vaddr >= h.End() then p.vaddr - h.len else p.vaddr)
            && p'.offset == (if p.offset >= h.End() then p.offset - h.len else p.offset)
            && p'.filesz == (if Around(h, p) then p.filesz - h.len else p.filesz)
            && p'.memsz == (if Around(h, p) then p.memsz - h.len else p.memsz)
  {
    hide FixupAddr, FixupOffset, FixupSize, FixupAddrSize;
    AddrCases(h, p.vaddr);
    OffsetCases(h, p.offset, p.filesz);
    AddrSizeCases(h, p.vaddr, p.memsz);
  }

  lemma AddrSizeCases(h: Hole, vaddr: Word, memsz: Word)
    requires vaddr + memsz < MODULUS && (vaddr <= h.index < vaddr + memsz ==> h.len <= memsz)
    ensures FixupAddrSize(h, vaddr, memsz) == if vaddr <= h.index < vaddr + memsz then memsz - h.len else memsz
  {
    hide Sub, Add;
    AddExact(vaddr, memsz);
    if vaddr <= h.index < vaddr + memsz { SubExact(memsz, h.len); }
  }

  /** A loader's view: an address outside the hole is in the rewritten segment, shifted, exactly if it was in the segment,
      and has its byte in the file exactly if it had one; that byte is then found where it has moved to. */
  lemma SegmentFollows(h: Hole, data: Bytes, p: Phdr, v: Word)
    requires 0 < h.index && h.End() <= |data| < MODULUS && SegmentPlaced(h, p) && OutsideHole(h, v)
    ensures var p', v' := RemapSegment(h, p), FixupAddr(h, v);
            && (p.vaddr <= v < p.vaddr + p.memsz <==> p'.vaddr <= v' < p'.vaddr + p'.memsz)
            && (Maps(p, v, 1) <==> Maps(p', v', 1))
            && (Maps(p, v, 1) && p.offset + p.filesz <= |data| ==>
                  && OutsideHole(h, FileAt(p, v)) && FileAt(p', v') == FixupOffset(h, FileAt(p, v))
                  && FileAt(p', v') < |Compacted(data, h)| && Compacted(data, h)[FileAt(p', v')] == data[FileAt(p, v)])
  {
    hide FixupAddr, FixupOffset, RemapSegment, Compacted;
    SegmentHeader(h, p);
    AddrCases(h, v);
    if Maps(p, v, 1) && p.offset + p.filesz <= |data| {
      OffsetCases(h, FileAt(p, v), 0);
      ByteMoved(data, h, FileAt(p, v));
    }
  }

  /** Entries that hold an address, by their numbers in the System V ABI and the GNU extensions. */
  predicate AbiAddress(tag: int) {
    tag in {3, 4, 5, 6, 7, 12, 13, 17, 21, 23, 25, 26, 32, 0x6ffffef5, 0x6ffffff0, 0x6ffffffc, 0x6ffffffe}
  }

  /** Those among them that remap_dynamic does not know: DT_SYMTAB, DT_DEBUG, DT_INIT_ARRAY, DT_FINI_ARRAY,
      DT_PREINIT_ARRAY and DT_GNU_HASH. */
  predicate LeftAlone(tag: int) {
    tag in {6, 21, 25, 26, 32, 0x6ffffef5}
  }

  /** After remap_dynamic an entry that holds an address leads a loader through the rewritten segment to where the byte it
      led to has moved, exactly if the entry is one the program knows, its address is in front of the hole, or the hole is
      empty. */
  lemma DynamicFollows(h: Hole, data: Bytes, p: Phdr, newSize: Word, dyn: seq<Dyn<Word>>, dyn': seq<Dyn<Word>>, i: nat)
    requires 0 < h.index && h.End() <= |data| < MODULUS && SegmentPlaced(h, p) && p.offset + p.filesz <= |data|
    requires DynamicRewritten(h, newSize, dyn, dyn') && i < Entries(dyn) && AbiAddress(dyn[i].tag)
    requires OutsideHole(h, dyn[i].val) && Maps(p, dyn[i].val, 1)
    ensures var p', v, v' := RemapSegment(h, p), dyn[i].val, dyn'[i].val;
            var found := Maps(p', v', 1) && FileAt(p', v') == FixupOffset(h, FileAt(p, v));
            && dyn'[i].tag == dyn[i].tag
            && (found <==> !LeftAlone(dyn[i].tag) || v < h.index || h.len == 0)
            && (found ==> FileAt(p', v') < |Compacted(data, h)| && Compacted(data, h)[FileAt(p', v')] == data[FileAt(p, v)])
  {
    hide FixupAddr, FixupOffset, RemapSegment, Compacted, SegmentPlaced, DynamicVal;
    var v := dyn[i].val;
    assert EntryRewritten(h, newSize, dyn[i], dyn'[i]);
    SegmentFollows(h, data, p, v);
    AddrCases(h, v);
  }

  /** A shared object whose initialisers stand in an array behind the hole: after the rewrite DT_INIT_ARRAY still holds the
      old address, and the loader takes its initialisers from elsewhere. */
  lemma InitArrayLeftBehind(dyn': seq<Dyn<Word>>)
    requires DynamicRewritten(Hole(0x500, 0x100), 0x400, [Dyn(25, 0x2000), Dyn(0, 0)], dyn')
    ensures var h, p, dyn := Hole(0x500, 0x100), Phdr(0, 0x3000, 0, 0x3000, 0), [Dyn(25, 0x2000), Dyn(0, 0)];
            && SegmentPlaced(h, p) && Entries(dyn) == 1 && AbiAddress(25) && Maps(p, 0x2000, 1)
            && dyn'[0] == Dyn(25, 0x2000) && FileAt(RemapSegment(h, p), 0x2000) == 0x2000 && FixupOffset(h, 0x2000) == 0x1f00
  {
    var dyn: seq<Dyn<Word>> := [Dyn(25, 0x2000), Dyn(0, 0)];
    assert Entries(dyn[1..]) == 0;
    assert EntryRewritten(Hole(0x500, 0x100), 0x400, dyn[0], dyn'[0]);
  }

  /** Relocations through program headers: where the target of an entry is mapped by a segment, the rewritten segment maps
      the shifted address in the moved entry to the place where the target word moved to, and that word has been shifted
      once. The rewritten section headers play no part. */
  lemma RelocationMapped(e: Env, data: Bytes, ps: seq<nat>, i: nat, p: Phdr)
    requires 0 < e.h.index && e.h.End() <= |data| < MODULUS && Separate(e, data, ps) && i < |ps|
    requires Relocates(data, ps[i]) && OutsideHole(e.h, WordAt(data, ps[i]))
    requires SegmentPlaced(e.h, p) && p.offset + p.filesz <= |data|
    requires Maps(p, WordAt(data, ps[i]), 4) && FileAt(p, WordAt(data, ps[i])) == Target(e, data, ps[i])
    requires ps[i] + 8 <= e.h.index || ps[i] >= e.h.End()
    requires Target(e, data, ps[i]) + 4 <= e.h.index || Target(e, data, ps[i]) >= e.h.End()
    ensures var out := Compacted(RemapEntries(e, data, ps), e.h);
            var at := FixupOffset(e.h, ps[i]);
            && at + 4 <= |out|
            && var p', v' := RemapSegment(e.h, p), WordAt(out, at);
            && Maps(p', v', 4) && 0 <= FileAt(p', v') && FileAt(p', v') + 4 <= |out|
            && WordAt(out, FileAt(p', v')) == FixupAddr(e.h, WordAt(data, Target(e, data, ps[i])))
  {
    hide WordAt, Resolve, FixupAddr, FixupOffset, Separate, RemapEntries, Compacted, RemapSegment, Relocates, Target;
    var d := RemapEntries(e, data, ps);
    TableCorrectedOnce(e, data, ps);
    assert Corrected(e, data, d, ps[i]);
    WordMoved(d, e.h, ps[i]);
    WordMoved(d, e.h, Target(e, data, ps[i]));
    SegmentHeader(e.h, p);
    AddrCases(e.h, WordAt(data, ps[i]));
    OffsetCases(e.h, Target(e, data, ps[i]), 0);
  }
}
