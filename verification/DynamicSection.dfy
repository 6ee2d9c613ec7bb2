/** Entries of an ELF dynamic section (System V ABI, chapter 5); values are whatever the user of
    the module works with, plain indices or 32-bit words. */
module DynamicSection {

  const DT_NULL := 0
  const DT_NEEDED := 1
  const DT_PLTRELSZ := 2
  const DT_PLTGOT := 3
  const DT_HASH := 4
  const DT_STRTAB := 5
  const DT_RELA := 7
  const DT_RELASZ := 8
  const DT_RELAENT := 9
  const DT_STRSZ := 10
  const DT_INIT := 12
  const DT_FINI := 13
  const DT_SONAME := 14
  const DT_RPATH := 15
  const DT_REL := 17
  const DT_RELSZ := 18
  const DT_RELENT := 19
  const DT_PLTREL := 20
  const DT_JMPREL := 23
  const DT_VERSYM := 0x6ffffff0
  const DT_VERDEF := 0x6ffffffc
  const DT_VERNEED := 0x6ffffffe

  datatype Dyn<+T> = Dyn(tag: int, val: T)

  /** How many entries come before the DT_NULL that ends the dynamic section. */
  function Entries<T>(dyn: seq<Dyn<T>>): (n: nat)
    ensures n <= |dyn|
    ensures forall i :: 0 <= i < n ==> dyn[i].tag != DT_NULL
    ensures n < |dyn| ==> dyn[n].tag == DT_NULL
  {
    if dyn == [] || dyn[0].tag == DT_NULL then 0 else 1 + Entries(dyn[1..])
  }
}
