/** elf-dynstr-gc.c, second half: the unused tail of .dynstr becomes a hole, the hole is aligned,
    every offset, address and size is corrected for it, and the file is slid down over it. */
module ElfHole {
  import opened LittleEndian

  const MODULUS := 0x1_0000_0000

  /** Elf32_Word, Elf32_Addr and Elf32_Off. */
  type Word = w: int | 0 <= w < MODULUS witness 0

  /** Unsigned 32-bit arithmetic. */
  function Sub(a: Word, b: Word): Word { (a - b) % MODULUS }

  function Add(a: Word, b: Word): Word { (a + b) % MODULUS }

  datatype Shdr = Shdr(addr: Word, offset: Word, size: Word, addralign: Word)
  datatype Phdr = Phdr(offset: Word, filesz: Word, vaddr: Word, memsz: Word, paddr: Word)

  /** hole_index and hole_len; hole_addr_start is set to hole_index as well. */
  datatype Hole = Hole(index: Word, len: Word) {
    function End(): int { index + len }
  }

  function FixupOffset(h: Hole, offset: Word): Word {
    if offset >= h.index then Sub(offset, h.len) else offset
  }

  function FixupSize(h: Hole, offset: Word, size: Word): Word {
    if h.index >= offset && h.index < Add(offset, size) then Sub(size, h.len) else size
  }

  function FixupAddr(h: Hole, addr: Word): Word {
    if addr == 0 then 0
    else if addr >= h.index then Sub(addr, h.len)
    else addr
  }

  function FixupAddrSize(h: Hole, addr: Word, size: Word): Word {
    if h.index >= addr && h.index < Add(addr, size) then Sub(size, h.len) else size
  }

  // ---------- sliding the file down ----------

  /** The file without the hole. */
  function Compacted(data: Bytes, h: Hole): Bytes
    requires h.End() <= |data|
  {
    data[..h.index] + data[h.End()..]
  }

  /** memmove from the end of the hole to its start; ftruncate then cuts the last len bytes. */
  method Compact(mapping: array<Byte>, h: Hole)
    requires h.End() <= mapping.Length
    modifies mapping
    ensures mapping[..mapping.Length - h.len] == Compacted(old(mapping[..]), h)
  {
    var n := mapping.Length - h.End();
    var i := 0;
    while i < n
      invariant 0 <= i <= n
      invariant forall k :: 0 <= k < h.index ==> mapping[k] == old(mapping[k])
      invariant forall k :: h.index <= k < h.index + i ==> mapping[k] == old(mapping[k + h.len])
      invariant forall k :: h.index + i <= k < mapping.Length ==> mapping[k] == old(mapping[k])
    {
      mapping[h.index + i] := mapping[h.End() + i];
      i := i + 1;
    }
    ghost var left := mapping[..mapping.Length - h.len];
    forall k | 0 <= k < |left| ensures left[k] == Compacted(old(mapping[..]), h)[k] {
      CompactedAt(old(mapping[..]), h, k);
    }
  }

  /** Every byte outside the hole is found where fixup_offset says. */
  lemma ByteMoved(data: Bytes, h: Hole, p: Word)
    requires h.End() <= |data| && p < |data| && (p < h.index || p >= h.End())
    ensures FixupOffset(h, p) < |Compacted(data, h)| && Compacted(data, h)[FixupOffset(h, p)] == data[p]
  {
  }

  lemma CompactedSize(data: Bytes, h: Hole)
    requires h.End() <= |data|
    ensures |Compacted(data, h)| == |data| - h.len
  {
  }

  lemma CompactedAt(data: Bytes, h: Hole, q: nat)
    requires h.End() <= |data| && q < |data| - h.len
    ensures |Compacted(data, h)| == |data| - h.len
    ensures Compacted(data, h)[q] == if q < h.index then data[q] else data[q + h.len]
  {
  }

  /** How many bytes of a range lie in the hole. */
  function Overlap(h: Hole, offset: Word, size: Word): nat {
    var lo := if offset < h.index then h.index else offset;
    var hi := if offset + size < h.End() then offset + size else h.End();
    if lo < hi then hi - lo else 0
  }

  /** The bytes of a range that are not in the hole. */
  function Outside(data: Bytes, h: Hole, offset: Word, size: Word): Bytes
    requires offset + size <= |data| && h.End() <= |data|
  {
    if Overlap(h, offset, size) == 0 then data[offset..offset + size]
    else
      (if offset < h.index then data[offset..h.index] else []) +
      (if h.End() < offset + size then data[h.End()..offset + size] else [])
  }

  /** The size is corrected to the bytes that remain if and only if the hole lies wholly inside
      the range or wholly outside it. */
  lemma SizeRightIff(h: Hole, offset: Word, size: Word)
    requires h.len > 0 && h.End() < MODULUS && offset + size < MODULUS
    ensures FixupSize(h, offset, size) == size - Overlap(h, offset, size) <==>
            Overlap(h, offset, size) == 0 || Overlap(h, offset, size) == h.len
  {
  }

  /** A range the hole does not touch, or one that starts before it and contains all of it. */
  predicate Whole(h: Hole, offset: Word, size: Word) {
    || (offset < h.index && offset + size <= h.index)
    || offset >= h.End()
    || (offset < h.index && h.End() <= offset + size)
  }

  lemma SubExact(a: Word, b: Word)
    requires b <= a
    ensures Sub(a, b) == a - b
  {
  }

  lemma AddExact(a: Word, b: Word)
    requires a + b < MODULUS
    ensures Add(a, b) == a + b
  {
  }

  /** The three cases without wrap-around. */
  lemma WholeCases(h: Hole, offset: Word, size: Word)
    requires h.End() < MODULUS && offset + size < MODULUS && Whole(h, offset, size)
    ensures FixupOffset(h, offset) == if offset >= h.End() then offset - h.len else offset
    ensures FixupSize(h, offset, size) == if offset < h.index && h.index < offset + size then size - h.len else size
  {
    hide Sub, Add;
    AddExact(offset, size);
    if offset >= h.End() { SubExact(offset, h.len); }
    if offset <= h.index < offset + size { SubExact(size, h.len); }
  }

  /** A header corrected for the hole reads, in the compacted file, what it read before, less the hole. */
  lemma RangeMoved(data: Bytes, h: Hole, offset: Word, size: Word)
    requires h.End() <= |data| < MODULUS && offset + size <= |data| && Whole(h, offset, size)
    ensures var o, s := FixupOffset(h, offset), FixupSize(h, offset, size);
            && o + s <= |Compacted(data, h)|
            && Compacted(data, h)[o..o + s] == Outside(data, h, offset, size)
  {
    hide FixupOffset, FixupSize, Compacted;
    WholeCases(h, offset, size);
    CompactedSize(data, h);
    var o, s := FixupOffset(h, offset), FixupSize(h, offset, size);
    var l, r := Compacted(data, h)[o..o + s], Outside(data, h, offset, size);
    assert |l| == |r|;
    forall k | 0 <= k < |l| ensures l[k] == r[k] {
      assert l[k] == Compacted(data, h)[o + k];
      CompactedAt(data, h, o + k);
    }
  }

  /** Ranges in file order stay in file order and do not run into each other. */
  lemma OrderKept(h: Hole, o1: Word, s1: Word, o2: Word, s2: Word)
    requires h.End() < MODULUS && o2 + s2 < MODULUS
    requires Whole(h, o1, s1) && Whole(h, o2, s2) && o1 + s1 <= o2
    ensures FixupOffset(h, o1) + FixupSize(h, o1, s1) <= FixupOffset(h, o2)
  {
    hide FixupOffset, FixupSize;
    WholeCases(h, o1, s1);
    WholeCases(h, o2, s2);
  }

  function RemapSection(h: Hole, s: Shdr): Shdr {
    s.(size := FixupSize(h, s.offset, s.size), offset := FixupOffset(h, s.offset), addr := FixupAddr(h, s.addr))
  }

  function RemapSegment(h: Hole, p: Phdr): Phdr {
    var vaddr := FixupAddr(h, p.vaddr);
    Phdr(FixupOffset(h, p.offset), FixupSize(h, p.offset, p.filesz), vaddr, FixupAddrSize(h, p.vaddr, p.memsz), vaddr)
  }

  /** Each field is written before the next is computed; the order matters, since sizes are
      corrected from the offsets as they were. */
  method RemapSections(h: Hole, sections: array<Shdr>)
    modifies sections
    ensures forall i :: 0 <= i < sections.Length ==> sections[i] == RemapSection(h, old(sections[i]))
  {
    for i := 0 to sections.Length
      invariant forall j :: 0 <= j < i ==> sections[j] == RemapSection(h, old(sections[j]))
      invariant forall j :: i <= j < sections.Length ==> sections[j] == old(sections[j])
    {
      sections[i] := sections[i].(size := FixupSize(h, sections[i].offset, sections[i].size));
      sections[i] := sections[i].(offset := FixupOffset(h, sections[i].offset));
      sections[i] := sections[i].(addr := FixupAddr(h, sections[i].addr));
    }
  }

  method RemapSegments(h: Hole, segments: array<Phdr>)
    modifies segments
    ensures forall i :: 0 <= i < segments.Length ==> segments[i] == RemapSegment(h, old(segments[i]))
  {
    for i := 0 to segments.Length
      invariant forall j :: 0 <= j < i ==> segments[j] == RemapSegment(h, old(segments[j]))
      invariant forall j :: i <= j < segments.Length ==> segments[j] == old(segments[j])
    {
      segments[i] := segments[i].(filesz := FixupSize(h, segments[i].offset, segments[i].filesz));
      segments[i] := segments[i].(offset := FixupOffset(h, segments[i].offset));
      segments[i] := segments[i].(memsz := FixupAddrSize(h, segments[i].vaddr, segments[i].memsz));
      segments[i] := segments[i].(vaddr := FixupAddr(h, segments[i].vaddr));
      segments[i] := segments[i].(paddr := segments[i].vaddr);
    }
  }

  // ---------- choosing the hole ----------

  /** elf_find_next_higher_section: a section with the least offset not below the given one. */
  method FindNextHigherSection(sections: seq<Shdr>, offset: Word) returns (higher: int)
    ensures -1 <= higher < |sections|
    ensures higher == -1 <==> forall i :: 0 <= i < |sections| ==> sections[i].offset < offset
    ensures higher >= 0 ==> NextHigher(sections, offset, sections[higher].offset)
  {
    higher := -1;
    for i := 0 to |sections|
      invariant -1 <= higher < i
      invariant higher == -1 <==> forall j :: 0 <= j < i ==> sections[j].offset < offset
      invariant higher >= 0 ==> sections[higher].offset >= offset
      invariant higher >= 0 ==> forall j :: 0 <= j < i && sections[j].offset >= offset ==>
                  sections[higher].offset <= sections[j].offset
    {
      if sections[i].offset >= offset {
        if higher == -1 {
          higher := i;
        } else if sections[i].offset < sections[higher].offset {
          higher := i;
        }
      }
    }
  }

  ghost predicate NextHigher(sections: seq<Shdr>, offset: Word, end: Word) {
    && end >= offset
    && forall i :: 0 <= i < |sections| && sections[i].offset >= offset ==> end <= sections[i].offset
  }

  /** The test of align_hole for one section, in 32-bit arithmetic. */
  predicate Aligned(s: Shdr, len: Word, align: Word) {
    s.addralign > 1 ==> Add(Sub(s.offset, len), align) % s.addralign == 0
  }

  predicate AllAligned(sections: seq<Shdr>, len: Word, align: Word) {
    forall i :: 0 <= i < |sections| ==> Aligned(sections[i], len, align)
  }

  /** align_hole: the start of the hole moves up by the least shift that keeps every section
      aligned. With such a shift the loop ends. */
  method AlignHole(sections: seq<Shdr>, start: Word, end: Word) returns (newStart: Word, align: Word)
    requires exists a: Word :: AllAligned(sections, Sub(end, start), a)
    ensures newStart == Add(start, align)
    ensures AllAligned(sections, Sub(end, start), align)
    ensures forall a: Word :: a < align ==> !AllAligned(sections, Sub(end, start), a)
    ensures InitiallyAligned(sections) ==> align <= Sub(end, start)
  {
    var len := Sub(end, start);
    align := 0;
    ghost var last: Word :| AllAligned(sections, len, last);
    var unaligned := true;
    while unaligned
      invariant forall a: Word :: a < align ==> !AllAligned(sections, len, a)
      invariant align <= last
      invariant !unaligned ==> AllAligned(sections, len, align)
      decreases last - align, unaligned
    {
      unaligned := false;
      for i := 0 to |sections|
        invariant unaligned <==> exists j :: 0 <= j < i && !Aligned(sections[j], len, align)
      {
        if sections[i].addralign > 1 && Add(Sub(sections[i].offset, len), align) % sections[i].addralign != 0 {
          unaligned := true;
        }
      }
      if unaligned {
        assert !AllAligned(sections, len, align);
        assert align != last;
        align := align + 1;
      }
    }
    newStart := Add(start, align);
    if InitiallyAligned(sections) { WholeHoleAligns(sections, len); }
  }

  predicate InitiallyAligned(sections: seq<Shdr>) {
    forall i :: 0 <= i < |sections| && sections[i].addralign > 1 ==> sections[i].offset % sections[i].addralign == 0
  }

  /** Sections aligned to begin with can always be kept aligned, at worst by closing the hole. */
  lemma WholeHoleAligns(sections: seq<Shdr>, len: Word)
    requires InitiallyAligned(sections)
    ensures AllAligned(sections, len, len)
  {
    forall i | 0 <= i < |sections| ensures Aligned(sections[i], len, len) {
      AddSub(sections[i].offset, len);
    }
  }

  lemma AddSub(a: Word, b: Word)
    ensures Add(Sub(a, b), b) == a
  {
  }

  /** What the shift is for: sections above the hole stay aligned after they move down by what is
      left of it. */
  lemma AlignedAfterMove(s: Shdr, start: Word, end: Word, align: Word)
    requires start <= end && align <= end - start && Aligned(s, Sub(end, start), align) && s.addralign > 1
    requires s.offset >= end
    ensures FixupOffset(Hole(start + align, end - start - align), s.offset) % s.addralign == 0
  {
    hide Sub, Add;
    SubExact(end, start);
    SubExact(s.offset, end - start);
    AddExact(s.offset - (end - start), align);
    SubExact(s.offset, end - start - align);
  }

  /** The hole made from the unused end of .dynstr: from the end of the new table, up to the next
      section, less the alignment shift. */
  function HoleOf(dynstr: Shdr, newSize: Word, end: Word, align: Word): Hole
    requires dynstr.offset + newSize + align <= end
  {
    Hole(dynstr.offset + newSize + align, end - (dynstr.offset + newSize + align))
  }

  /** No section but .dynstr itself can be cut by the hole. */
  lemma OthersWhole(sections: seq<Shdr>, dynstr: Shdr, newSize: Word, end: Word, align: Word, s: Shdr)
    requires s in sections && 0 < newSize < dynstr.size && dynstr.offset + newSize + align <= end
    requires NextHigher(sections, dynstr.offset + newSize, end)
    requires s.offset + s.size <= dynstr.offset || s.offset >= dynstr.offset + dynstr.size
    ensures Whole(HoleOf(dynstr, newSize, end, align), s.offset, s.size)
  {
  }

  predicate Inside(s: Shdr, p: Phdr) {
    p.offset <= s.offset && s.offset + s.size <= p.offset + p.filesz
  }

  predicate Apart(s: Shdr, p: Phdr) {
    s.offset + s.size <= p.offset || p.offset + p.filesz <= s.offset
  }

  /** A segment that starts in front of .dynstr or where a section starts, and holds .dynstr or is apart from it, is whole
      exactly if it does not hold .dynstr and end in the padding behind it, beyond the start of the hole. */
  lemma SegmentWholeIff(sections: seq<Shdr>, dynstr: Shdr, newSize: Word, end: Word, align: Word, p: Phdr)
    requires 0 < newSize < dynstr.size && dynstr.offset + newSize + align < end
    requires NextHigher(sections, dynstr.offset + newSize, end)
    requires p.offset <= dynstr.offset || exists s :: s in sections && s.offset == p.offset
    requires Inside(dynstr, p) || Apart(dynstr, p)
    ensures Whole(HoleOf(dynstr, newSize, end, align), p.offset, p.filesz) <==>
              !(Inside(dynstr, p) && HoleOf(dynstr, newSize, end, align).index < p.offset + p.filesz < end)
  {
    if p.offset > dynstr.offset {
      var s :| s in sections && s.offset == p.offset;
    }
  }

  /** The .dynstr header itself: with no padding between it and the next section it is right; with
      padding, the rewritten size covers the new table and stays in front of the hole if and only if
      the padding is at most the alignment shift, or the hole starts behind the section. */
  lemma DynstrHeader(dynstr: Shdr, newSize: Word, end: Word, align: Word)
    requires 0 < newSize < dynstr.size && dynstr.offset + dynstr.size <= end
    requires dynstr.offset + newSize + align < end
    ensures var h := HoleOf(dynstr, newSize, end, align);
            var padding := end - (dynstr.offset + dynstr.size);
            (newSize <= FixupSize(h, dynstr.offset, dynstr.size) <= newSize + align)
            <==> (padding <= align || h.index >= dynstr.offset + dynstr.size)
  {
  }

  /** The failing case is real: three bytes of padding but a shift of two cut the last byte of a
      six-byte table off the section, although DT_STRSZ is right. */
  lemma DynstrHeaderTooSmall()
    ensures var dynstr := Shdr(100, 100, 9, 1);
            var next := Shdr(112, 112, 40, 4);
            && AllAligned([dynstr, next], Sub(112, 106), 2)
            && !AllAligned([dynstr, next], Sub(112, 106), 0) && !AllAligned([dynstr, next], Sub(112, 106), 1)
            && FixupSize(HoleOf(dynstr, 6, 112, 2), dynstr.offset, dynstr.size) == 5
  {
    var dynstr, next := Shdr(100, 100, 9, 1), Shdr(112, 112, 40, 4);
    assert !Aligned([dynstr, next][1], 6, 0) && !Aligned([dynstr, next][1], 6, 1);
  }
}
