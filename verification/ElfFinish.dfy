/** elf-dynstr-gc.c, the whole of main: strings, relocations, headers and the move taken together. */
module ElfFinish {
  import opened LittleEndian
  import opened DynamicSection
  import opened ElfHole
  import opened ElfReloc
  import ElfStrings

  /** The hole made behind a new table of newSize bytes at the start of dynstr, which is section d and mapped at its own
      offset. */
  ghost predicate Made(e: Env, d: nat, newSize: Word, end: Word, align: Word) {
    && d < |e.sections|
    && var dynstr := e.sections[d];
       && dynstr.addr == dynstr.offset && 0 < newSize < dynstr.size && dynstr.offset + dynstr.size <= end
       && dynstr.offset + newSize + align <= end && e.h == HoleOf(dynstr, newSize, end, align)
       && First(e.sections, dynstr.addr) == d && Loaded(e.h, e.sections, dynstr.addr)
  }

  /** The address in DT_STRTAB, shifted, resolves through the rewritten headers to the new table exactly if no unloaded
      section listed before reaches up to it and the padding behind the old table is less than what the new size and the
      alignment shift come to. */
  lemma StrtabFoundIff(e: Env, d: nat, newSize: Word, end: Word, align: Word)
    requires Made(e, d, newSize, end, align) && e.h.End() < MODULUS
    ensures var dynstr := e.sections[d];
            && FixupAddr(e.h, dynstr.addr) == dynstr.addr
            && (First(Remapped(e.h, e.sections), dynstr.addr) == d <==>
                  && (end - (dynstr.offset + dynstr.size) < newSize + align || e.h.index >= dynstr.offset + dynstr.size)
                  && (forall j :: 0 <= j < d && e.sections[j].addr == 0 ==> dynstr.addr >= RemapSection(e.h, e.sections[j]).size))
            && (First(Remapped(e.h, e.sections), dynstr.addr) == d ==>
                  Resolve(Remapped(e.h, e.sections), dynstr.addr) == dynstr.offset)
  {
    hide First, Loaded, Resolve, RemapSection;
    var dynstr := e.sections[d];
    AddrCases(e.h, dynstr.addr);
    AddressFollows(e.h, e.sections, dynstr.addr);
  }

  /** What stands in front of the hole and is not touched by a relocation is still there. */
  lemma TableInPlace(e: Env, data: Bytes, ps: seq<nat>, at: nat, newSize: Word, tab: Bytes, old_: nat, new_: nat)
    requires e.h.End() <= |data| && Separate(e, data, ps) && 0 < newSize && at + newSize <= e.h.index
    requires forall k :: at <= k < at + newSize ==> !TouchedBy(e, data, ps, |ps|, k)
    requires data[at + newSize - 1] == 0 && ElfStrings.SameString(tab, old_, data[at..at + newSize], new_)
    ensures var out := Compacted(RemapEntries(e, data, ps), e.h);
            at <= |out| && ElfStrings.SameString(tab, old_, out[at..], new_)
  {
    hide RemapEntries, TouchedBy, Separate, ElfStrings.SameString, Corrected;
    TableCorrectedOnce(e, data, ps);
    var out, table := Compacted(RemapEntries(e, data, ps), e.h), data[at..at + newSize];
    assert out[at..][..newSize] == table;
    ElfStrings.WhateverFollows(tab, old_, table, new_, out[at..][newSize..]);
    assert table + out[at..][newSize..] == out[at..];
  }

  /** In the finished file, with relocations corrected that leave the new table alone, each reference that names a string
      of the new table names it through DT_STRTAB and the rewritten headers. */
  lemma StringsFollow(e: Env, data: Bytes, ps: seq<nat>, d: nat, newSize: Word, end: Word, align: Word, tab: Bytes, old_: nat,
                      new_: nat)
    requires Made(e, d, newSize, end, align) && end <= |data| < MODULUS && Separate(e, data, ps)
    requires var at := e.sections[d].offset;
             && (forall k :: at <= k < at + newSize ==> !TouchedBy(e, data, ps, |ps|, k))
             && data[at + newSize - 1] == 0 && ElfStrings.SameString(tab, old_, data[at..at + newSize], new_)
    requires First(Remapped(e.h, e.sections), e.sections[d].addr) == d
    ensures var out := Compacted(RemapEntries(e, data, ps), e.h);
            var off := Resolve(Remapped(e.h, e.sections), FixupAddr(e.h, e.sections[d].addr));
            0 <= off <= |out| && ElfStrings.SameString(tab, old_, out[off..], new_)
  {
    hide First, Loaded, Resolve, Remapped, RemapEntries, TouchedBy, Separate, ElfStrings.SameString, FixupAddr,
         Corrected;
    StrtabFoundIff(e, d, newSize, end, align);
    TableInPlace(e, data, ps, e.sections[d].offset, newSize, tab, old_, new_);
  }

  /** A loader finds the same: it takes the address in DT_STRTAB (5) from the rewritten dynamic section and goes through a
      segment that maps the new table, and DT_STRSZ (10) is the length of the new table. Neither the section headers nor the
      padding behind the old table play a part. */
  lemma StringsMapped(e: Env, data: Bytes, ps: seq<nat>, dynstr: Shdr, newSize: Word, p: Phdr, dyn: seq<Dyn<Word>>,
                      dyn': seq<Dyn<Word>>, tab: Bytes, old_: nat, new_: nat)
    requires 0 < e.h.index && e.h.End() <= |data| < MODULUS && Separate(e, data, ps)
    requires 0 < newSize && dynstr.offset + newSize <= e.h.index && dynstr.addr + newSize <= e.h.index
    requires var at := dynstr.offset;
             && (forall k :: at <= k < at + newSize ==> !TouchedBy(e, data, ps, |ps|, k))
             && data[at + newSize - 1] == 0 && ElfStrings.SameString(tab, old_, data[at..at + newSize], new_)
    requires SegmentPlaced(e.h, p) && Maps(p, dynstr.addr, newSize) && FileAt(p, dynstr.addr) == dynstr.offset
    requires IsValue(dyn, 5, dynstr.addr) && DynamicRewritten(e.h, newSize, dyn, dyn')
    ensures forall v' :: IsValue(dyn', 5, v') ==>
              var out, p' := Compacted(RemapEntries(e, data, ps), e.h), RemapSegment(e.h, p);
              && Maps(p', v', newSize) && 0 <= FileAt(p', v') <= |out|
              && ElfStrings.SameString(tab, old_, out[FileAt(p', v')..], new_)
    ensures IsValue(dyn', 5, FixupAddr(e.h, dynstr.addr))
    ensures (exists i :: 0 <= i < Entries(dyn) && dyn[i].tag == 10) ==> IsValue(dyn', 10, newSize)
  {
    hide RemapEntries, TouchedBy, Separate, ElfStrings.SameString, FixupAddr, Corrected, RemapSegment, IsValue,
         DynamicVal, DynamicRewritten;
    SegmentHeader(e.h, p);
    AddrCases(e.h, dynstr.addr);
    TableInPlace(e, data, ps, dynstr.offset, newSize, tab, old_, new_);
    StrtabRewritten(e.h, newSize, dyn, dyn');
    DynamicValIs(dyn, 5, dynstr.addr);
    DynamicValIs(dyn', 5, FixupAddr(e.h, dynstr.addr));
    DynamicValIs(dyn', 10, newSize);
    forall v' | IsValue(dyn', 5, v') ensures v' == FixupAddr(e.h, dynstr.addr) { DynamicValIs(dyn', 5, v'); }
  }
}
