/** elf-dynstr-gc.c, first half: the strings still referenced are collected, laid out in a new
    table in hash order, and every reference is rewritten. */
module ElfStrings {
  import opened LittleEndian
  import opened DynamicSection

  /** The NUL-terminated string at an index, as the C code sees it through a char pointer. */
  function CString(tab: Bytes, i: nat): (s: Bytes)
    ensures 0 !in s
    decreases |tab| - i
  {
    if i < |tab| && tab[i] != 0 then [tab[i]] + CString(tab, i + 1) else []
  }

  lemma {:induction false} CStringAt(tab: Bytes, p: nat, s: Bytes)
    requires 0 !in s && p + |s| < |tab| && tab[p..p + |s|] == s && tab[p + |s|] == 0
    ensures CString(tab, p) == s
    decreases |s|
  {
    if s != [] {
      assert tab[p] == tab[p..p + |s|][0] == s[0];
      assert tab[p + 1..p + 1 + |s[1..]|] == s[1..] by {
        SliceOfSlice(tab, p, |s|, 1, |s|);
      }
      CStringAt(tab, p + 1, s[1..]);
    }
  }

  // ---------- the new table as a function of the hash iteration order ----------

  /** A leading NUL, then the strings in order, each with its terminator. */
  function Table(order: seq<nat>, strings: map<nat, Bytes>): (t: Bytes)
    requires forall k :: k in order ==> k in strings
    ensures |t| >= 1 && t[0] == 0 && t[|t| - 1] == 0
  {
    if order == [] then [0]
    else Table(order[..|order| - 1], strings) + strings[order[|order| - 1]] + [0]
  }

  lemma {:induction false} TablePrefix(order: seq<nat>, strings: map<nat, Bytes>, i: nat)
    requires i <= |order| && forall k :: k in order ==> k in strings
    ensures Table(order[..i], strings) <= Table(order, strings)
  {
    if i < |order| {
      assert order[..|order| - 1][..i] == order[..i];
      TablePrefix(order[..|order| - 1], strings, i);
    } else {
      assert order[..i] == order;
    }
  }

  /** The index given to the i-th string written leads to that string. */
  lemma TableString(order: seq<nat>, strings: map<nat, Bytes>, i: nat)
    requires i < |order| && forall k :: k in order ==> k in strings && 0 !in strings[k]
    ensures |Table(order[..i], strings)| < |Table(order, strings)|
    ensures CString(Table(order, strings), |Table(order[..i], strings)|) == strings[order[i]]
  {
    var t, p, s := Table(order, strings), |Table(order[..i], strings)|, strings[order[i]];
    TablePrefix(order, strings, i + 1);
    assert order[..i + 1][..i] == order[..i];
    StringInside(Table(order[..i], strings), s, t);
    CStringAt(t, p, s);
  }

  lemma StringInside(before: Bytes, s: Bytes, t: Bytes)
    requires before + s + [0] <= t
    ensures t[|before|..|before| + |s|] == s && t[|before| + |s|] == 0
  {
    var x := t[|before|..|before| + |s|];
    forall k | 0 <= k < |x| ensures x[k] == s[k] { assert (before + s + [0])[|before| + k] == s[k]; }
    assert (before + s + [0])[|before| + |s|] == 0;
  }

  /** What sum_size adds up over a set of collected strings. */
  ghost function SumSizes(keys: set<nat>, strings: map<nat, Bytes>): nat
    requires keys <= strings.Keys
  {
    if keys == {} then 0
    else var k :| k in keys; |strings[k]| + 1 + SumSizes(keys - {k}, strings)
  }

  lemma {:induction false} SumSizesRemove(keys: set<nat>, strings: map<nat, Bytes>, x: nat)
    requires keys <= strings.Keys && x in keys
    ensures SumSizes(keys, strings) == |strings[x]| + 1 + SumSizes(keys - {x}, strings)
    decreases keys
  {
    var k :| k in keys && SumSizes(keys, strings) == |strings[k]| + 1 + SumSizes(keys - {k}, strings);
    if k != x {
      SumSizesRemove(keys - {k}, strings, x);
      SumSizesRemove(keys - {x}, strings, k);
      assert keys - {k} - {x} == keys - {x} - {k};
    }
  }

  ghost predicate Lists(order: seq<nat>, keys: set<nat>) {
    && (forall i, j :: 0 <= i < j < |order| ==> order[i] != order[j])
    && (forall k :: k in keys <==> k in order)
  }

  lemma TableEmpty(strings: map<nat, Bytes>)
    ensures Table([], strings) == [0] && Lists([], strings.Keys - strings.Keys)
  {
  }

  lemma ListsOne(order: seq<nat>, all: set<nat>, keys: set<nat>, k: nat)
    requires Lists(order, all - keys) && k in keys && keys <= all
    ensures k !in order && Lists(order + [k], all - (keys - {k})) && forall j :: j in order + [k] ==> j in all
  {
  }

  /** In every iteration order the table has exactly the size sum_size computed. */
  lemma {:induction false} TableSize(order: seq<nat>, keys: set<nat>, strings: map<nat, Bytes>)
    requires Lists(order, keys) && keys <= strings.Keys
    ensures |Table(order, strings)| == 1 + SumSizes(keys, strings)
  {
    if order == [] {
      assert keys == {};
    } else {
      var n := |order| - 1;
      var last := order[n];
      SumSizesRemove(keys, strings, last);
      forall k ensures k in keys - {last} <==> k in order[..n] {
        if k in keys - {last} {
          var i :| 0 <= i < |order| && order[i] == k;
          assert order[..n][i] == k;
        }
      }
      TableSize(order[..n], keys - {last}, strings);
    }
  }

  // ---------- the file's sections ----------

  datatype Verneed = Verneed(file: nat, auxNames: seq<nat>)
  datatype DynamicSymbol = DynamicSymbol(oldIndex: nat, newIndex: nat, str: Bytes)

  predicate NamesString(tag: int) {
    tag == DT_NEEDED || tag == DT_SONAME || tag == DT_RPATH
  }

  /** The references the program knows about, over all four kinds of section. In the dynamic section these are the entries
      with the numbers 1, 14 and 15 of the System V ABI: DT_NEEDED, DT_SONAME and DT_RPATH. */
  ghost predicate IsReference(sym: seq<nat>, dyn: seq<Dyn<nat>>, vd: seq<seq<nat>>, vn: seq<Verneed>, k: nat) {
    k in sym || InDynamic(dyn, k) || InVerD(vd, k) || InVerR(vn, k)
  }

  ghost predicate InDynamic(dyn: seq<Dyn<nat>>, k: nat) {
    exists i :: 0 <= i < Entries(dyn) && dyn[i].tag in {1, 14, 15} && dyn[i].val == k
  }

  ghost predicate InVerD(vd: seq<seq<nat>>, k: nat) {
    exists i :: 0 <= i < |vd| && k in vd[i]
  }

  ghost predicate InVerR(vn: seq<Verneed>, k: nat) {
    exists i :: 0 <= i < |vn| && (k == vn[i].file || k in vn[i].auxNames)
  }

  /** new refers through tab' to the string that old refers to through tab. */
  ghost predicate SameString(tab: Bytes, old_: nat, tab': Bytes, new_: nat) {
    new_ < |tab'| && CString(tab', new_) == CString(tab, old_)
  }

  /** A string of a table that ends with a terminator is the same whatever follows the table. */
  lemma WhateverFollows(tab: Bytes, old_: nat, tab': Bytes, new_: nat, tail: Bytes)
    requires SameString(tab, old_, tab', new_) && tab'[|tab'| - 1] == 0
    ensures SameString(tab, old_, tab' + tail, new_)
  {
    EndsInside(tab', new_, tail);
  }

  lemma {:induction false} EndsInside(tab: Bytes, i: nat, tail: Bytes)
    requires i < |tab| && tab[|tab| - 1] == 0
    ensures CString(tab + tail, i) == CString(tab, i)
    decreases |tab| - i
  {
    if tab[i] != 0 { EndsInside(tab, i + 1, tail); }
  }

  ghost predicate SameStrings(tab: Bytes, olds: seq<nat>, tab': Bytes, news: seq<nat>) {
    |news| == |olds| && forall i :: 0 <= i < |olds| ==> SameString(tab, olds[i], tab', news[i])
  }

  ghost predicate SameDynamic(tab: Bytes, olds: seq<Dyn<nat>>, tab': Bytes, news: seq<Dyn<nat>>) {
    |news| == |olds| && forall i :: 0 <= i < |olds| ==>
      && news[i].tag == olds[i].tag
      && if i < Entries(olds) && olds[i].tag in {1, 14, 15} then SameString(tab, olds[i].val, tab', news[i].val)
         else news[i].val == olds[i].val
  }

  ghost predicate SameVerneed(tab: Bytes, old_: Verneed, tab': Bytes, new_: Verneed) {
    SameString(tab, old_.file, tab', new_.file) && SameStrings(tab, old_.auxNames, tab', new_.auxNames)
  }

  class Image {
    const dynsym: array<nat>               // st_name of each symbol
    const dynamic: array<Dyn<nat>>
    const verD: array<seq<nat>>            // names of each definition; empty when not linked to .dynstr
    const verR: array<Verneed>             // likewise
    const dynstr: array<Byte>
    var used: map<nat, DynamicSymbol>      // the hash table, by old index

    constructor (sym: array<nat>, dyn: array<Dyn<nat>>, vd: array<seq<nat>>, vn: array<Verneed>, strs: array<Byte>)
      requires sym as object != strs
      ensures Valid() && used == map[]
      ensures dynsym == sym && dynamic == dyn && verD == vd && verR == vn && dynstr == strs
    {
      dynsym, dynamic, verD, verR, dynstr, used := sym, dyn, vd, vn, strs, map[];
    }

    ghost predicate Valid() {
      dynsym as object != dynstr
    }

    /** Each collected index is non-zero and has its string from the table. */
    ghost predicate Collected()
      reads this, dynstr
    {
      forall k :: k in used ==> k != 0 && used[k].str == CString(dynstr[..], k)
    }

    ghost predicate Has(k: nat)
      reads this
    {
      k != 0 ==> k in used
    }

    method PossiblyAddString(nameIdx: nat)
      requires Collected()
      modifies this`used
      ensures Collected() && Has(nameIdx) && used.Keys == old(used.Keys) + if nameIdx == 0 then {} else {nameIdx}
    {
      if nameIdx != 0 && nameIdx !in used {
        used := used[nameIdx := DynamicSymbol(nameIdx, 0, StringAt(nameIdx))];
      }
    }

    function StringAt(k: nat): Bytes
      reads dynstr
    {
      CString(dynstr[..], k)
    }

    method AddNames(names: seq<nat>)
      requires Collected()
      modifies this`used
      ensures Collected() && old(used.Keys) <= used.Keys && HasNames(names)
      ensures forall k :: k in used ==> k in old(used) || k in names
    {
      for i := 0 to |names|
        invariant Collected() && old(used.Keys) <= used.Keys
        invariant forall k :: k in used ==> k in old(used) || k in names
        invariant forall j :: 0 <= j < i ==> Has(names[j])
      {
        PossiblyAddString(names[i]);
      }
    }

    /** The index of every string-naming dynamic entry among the first n is in the table. */
    ghost predicate HasDynamic(n: nat)
      requires n <= dynamic.Length
      reads this, dynamic
    {
      forall j :: 0 <= j < n && NamesString(dynamic[j].tag) ==> Has(dynamic[j].val)
    }

    ghost predicate HasNames(names: seq<nat>)
      reads this
    {
      forall k :: k in names ==> Has(k)
    }

    method AddStringsFromDynamic()
      requires Collected()
      modifies this`used
      ensures Collected() && old(used.Keys) <= used.Keys && HasDynamic(Entries(dynamic[..]))
      ensures forall k :: k in used ==> k in old(used) || InDynamic(dynamic[..], k)
    {
      var n := Entries(dynamic[..]);
      for i := 0 to n
        invariant forall k :: k in used ==> k in old(used) || InDynamic(dynamic[..], k)
        invariant Collected() && old(used.Keys) <= used.Keys && HasDynamic(i)
      {
        if NamesString(dynamic[i].tag) {
          assert dynamic[..][i] == dynamic[i];
          PossiblyAddString(dynamic[i].val);
        }
      }
    }

    method AddStringsFromVerD()
      requires Collected()
      modifies this`used
      ensures Collected() && old(used.Keys) <= used.Keys && forall i :: 0 <= i < verD.Length ==> HasNames(verD[i])
      ensures forall k :: k in used ==> k in old(used) || InVerD(verD[..], k)
    {
      for i := 0 to verD.Length
        invariant forall k :: k in used ==> k in old(used) || InVerD(verD[..], k)
        invariant Collected() && old(used.Keys) <= used.Keys
        invariant forall j :: 0 <= j < i ==> HasNames(verD[j])
      {
        assert verD[..][i] == verD[i];
        AddNames(verD[i]);
      }
    }

    method AddStringsFromVerR()
      requires Collected()
      modifies this`used
      ensures Collected() && old(used.Keys) <= used.Keys
      ensures forall i :: 0 <= i < verR.Length ==> Has(verR[i].file) && HasNames(verR[i].auxNames)
      ensures forall k :: k in used ==> k in old(used) || InVerR(verR[..], k)
    {
      for i := 0 to verR.Length
        invariant forall k :: k in used ==> k in old(used) || InVerR(verR[..], k)
        invariant Collected() && old(used.Keys) <= used.Keys
        invariant forall j :: 0 <= j < i ==> Has(verR[j].file) && HasNames(verR[j].auxNames)
      {
        assert verR[..][i] == verR[i];
        PossiblyAddString(verR[i].file);
        AddNames(verR[i].auxNames);
      }
    }

    /** Every reference is collected, and nothing else. */
    method AddStrings()
      requires Valid() && used == map[]
      modifies this`used
      ensures Collected()
      ensures forall k :: k in used <==> k != 0 && IsReference(dynsym[..], dynamic[..], verD[..], verR[..], k)
      ensures forall k :: IsReference(dynsym[..], dynamic[..], verD[..], verR[..], k) ==> Has(k)
    {
      AddNames(dynsym[..]);
      AddStringsFromDynamic();
      AddStringsFromVerD();
      AddStringsFromVerR();
      forall k | IsReference(dynsym[..], dynamic[..], verD[..], verR[..], k) ensures Has(k) {
        assert HasNames(dynsym[..]);
      }
    }

    ghost function Strings(): (m: map<nat, Bytes>)
      reads this
      ensures m.Keys == used.Keys
    {
      map k | k in used :: used[k].str
    }

    /** Every collected string has got the index at which it stands in the table for this order. */
    ghost predicate Indexed(order: seq<nat>)
      reads this
    {
      && Lists(order, used.Keys)
      && forall i :: 0 <= i < |order| ==> order[i] in used && used[order[i]].newIndex == |Table(order[..i], Strings())|
    }

    /** foreach with sum_size. */
    method TotalSize() returns (size: nat)
      ensures size == 1 + SumSizes(used.Keys, Strings())
    {
      ghost var strings := Strings();
      size := 1;
      var keys := used.Keys;
      while keys != {}
        invariant keys <= strings.Keys
        invariant size + SumSizes(keys, strings) == 1 + SumSizes(strings.Keys, strings)
        decreases |keys|
      {
        var k :| k in keys;
        SumSizesRemove(keys, strings, k);
        size := size + |used[k].str| + 1;
        keys := keys - {k};
      }
    }

    /** output_string for one entry. */
    method OutputString(k: nat, table: array<Byte>, index: nat, ghost order: seq<nat>) returns (next: nat)
      requires k in used && k !in order && (forall j :: j in order ==> j in used)
      requires index + |used[k].str| + 1 <= table.Length && table[..index] == Table(order, Strings())
      requires forall i :: 0 <= i < |order| ==> used[order[i]].newIndex == |Table(order[..i], Strings())|
      modifies this`used, table
      ensures used.Keys == old(used.Keys) && Strings() == old(Strings()) && next == index + |used[k].str| + 1
      ensures table[..next] == Table(order + [k], Strings())
      ensures forall i :: 0 <= i < |order + [k]| ==>
                used[(order + [k])[i]].newIndex == |Table((order + [k])[..i], Strings())|
    {
      ghost var strings := Strings();
      var s := used[k].str;
      assert s == strings[k];
      used := used[k := used[k].(newIndex := index)];
      assert Strings() == strings;
      Write(table, index, s + [0]);
      next := index + |s| + 1;
      ghost var order' := order + [k];
      assert order'[..|order|] == order;
      assert table[..next] == table[..index] + (s + [0]);
      assert Table(order', strings) == Table(order, strings) + s + [0];
      forall i | 0 <= i < |order'| ensures used[order'[i]].newIndex == |Table(order'[..i], strings)| {
        if i < |order| { assert order'[..i] == order[..i]; }
      }
    }

    /** generate_new_dynstr; the entries are visited in whatever order the hash table has. */
    method GenerateNewDynstr() returns (newDynstr: array<Byte>, ghost order: seq<nat>)
      modifies this`used
      ensures used.Keys == old(used.Keys) && Strings() == old(Strings())
      ensures Indexed(order) && newDynstr[..] == Table(order, Strings())
      ensures newDynstr.Length == 1 + SumSizes(used.Keys, Strings())
      ensures fresh(newDynstr)
    {
      hide Table, Lists;
      ghost var strings := Strings();
      TableEmpty(strings);
      var size := TotalSize();
      newDynstr := new Byte[size];
      newDynstr[0] := 0;
      var index := 1;
      var keys := used.Keys;
      order := [];
      while keys != {}
        invariant used.Keys == old(used.Keys) && Strings() == strings && keys <= strings.Keys
        invariant Lists(order, strings.Keys - keys)
        invariant 1 <= index && index + SumSizes(keys, strings) == newDynstr.Length
        invariant forall k :: k in order ==> k in strings
        invariant newDynstr[..index] == Table(order, strings)
        invariant forall i :: 0 <= i < |order| ==> used[order[i]].newIndex == |Table(order[..i], strings)|
        decreases |keys|
      {
        var k :| k in keys;
        SumSizesRemove(keys, strings, k);
        ListsOne(order, strings.Keys, keys, k);
        index := OutputString(k, newDynstr, index, order);
        order := order + [k];
        keys := keys - {k};
      }
      assert used.Keys - {} == used.Keys;
    }

    /** memcpy. */
    static method Write(a: array<Byte>, at: nat, bs: Bytes)
      requires at + |bs| <= a.Length
      modifies a
      ensures a[..at] == old(a[..at]) && a[at..at + |bs|] == bs && a[at + |bs|..] == old(a[at + |bs|..])
    {
      for i := 0 to |bs|
        invariant a[..at] == old(a[..at]) && a[at..at + i] == bs[..i] && a[at + |bs|..] == old(a[at + |bs|..])
      {
        a[at + i] := bs[i];
      }
    }

    function FixupString(oldIdx: nat): nat
      reads this
    {
      if oldIdx == 0 || oldIdx !in used then 0 else used[oldIdx].newIndex
    }
  
    /** After the rewrite an index is the fixed-up one. */
    ghost predicate Fixed(olds: seq<nat>, news: seq<nat>)
      reads this
    {
      |news| == |olds| && forall i :: 0 <= i < |olds| ==> news[i] == FixupString(olds[i])
    }

    method FixNames(names: seq<nat>) returns (fixedNames: seq<nat>)
      ensures Fixed(names, fixedNames)
    {
      fixedNames := [];
      for i := 0 to |names|
        invariant |fixedNames| == i && forall j :: 0 <= j < i ==> fixedNames[j] == FixupString(names[j])
      {
        fixedNames := fixedNames + [FixupString(names[i])];
      }
    }

    ghost predicate FixedDyn(o: Dyn<nat>, n: Dyn<nat>)
      reads this
    {
      n == if NamesString(o.tag) then Dyn(o.tag, FixupString(o.val)) else o
    }

    ghost predicate FixedVerneed(o: Verneed, n: Verneed)
      reads this
    {
      n.file == FixupString(o.file) && Fixed(o.auxNames, n.auxNames)
    }

    method FixStringsInDynsym()
      modifies dynsym
      ensures Fixed(old(dynsym[..]), dynsym[..])
    {
      for i := 0 to dynsym.Length
        invariant forall j :: 0 <= j < i ==> dynsym[j] == FixupString(old(dynsym[j]))
        invariant forall j :: i <= j < dynsym.Length ==> dynsym[j] == old(dynsym[j])
      {
        dynsym[i] := FixupString(dynsym[i]);
      }
    }

    method FixStringsInDynamic()
      modifies dynamic
      ensures forall i :: 0 <= i < dynamic.Length ==>
                if i < old(Entries(dynamic[..])) then FixedDyn(old(dynamic[i]), dynamic[i]) else dynamic[i] == old(dynamic[i])
    {
      var n := Entries(dynamic[..]);
      for i := 0 to n
        invariant forall j :: 0 <= j < i ==> FixedDyn(old(dynamic[j]), dynamic[j])
        invariant forall j :: i <= j < dynamic.Length ==> dynamic[j] == old(dynamic[j])
      {
        if NamesString(dynamic[i].tag) {
          dynamic[i] := dynamic[i].(val := FixupString(dynamic[i].val));
        }
      }
    }

    method FixStringsInVerD()
      modifies verD
      ensures forall i :: 0 <= i < verD.Length ==> Fixed(old(verD[i]), verD[i])
    {
      for i := 0 to verD.Length
        invariant forall j :: 0 <= j < i ==> Fixed(old(verD[j]), verD[j])
        invariant forall j :: i <= j < verD.Length ==> verD[j] == old(verD[j])
      {
        var names := FixNames(verD[i]);
        verD[i] := names;
      }
    }

    method FixStringsInVerR()
      modifies verR
      ensures forall i :: 0 <= i < verR.Length ==> FixedVerneed(old(verR[i]), verR[i])
    {
      for i := 0 to verR.Length
        invariant forall j :: 0 <= j < i ==> FixedVerneed(old(verR[j]), verR[j])
        invariant forall j :: i <= j < verR.Length ==> verR[j] == old(verR[j])
      {
        var names := FixNames(verR[i].auxNames);
        verR[i] := Verneed(FixupString(verR[i].file), names);
      }
    }

    /** The new table gives each collected index its old string. */
    lemma FixupMeans(order: seq<nat>, tab: Bytes, k: nat)
      requires Indexed(order) && Has(k)
      requires forall j :: j in used ==> j != 0 && used[j].str == CString(tab, j)
      requires tab != [] && tab[0] == 0
      ensures forall i :: 0 <= i < |order| ==> order[i] in Strings()
      ensures SameString(tab, k, Table(order, Strings()), FixupString(k))
    {
      hide Table;
      if k != 0 {
        var i :| 0 <= i < |order| && order[i] == k;
        TableString(order, Strings(), i);
      }
    }

    /** Every collected index means through tab' what it meant through tab. */
    ghost predicate Translated(tab: Bytes, tab': Bytes)
      reads this
    {
      forall k :: Has(k) ==> SameString(tab, k, tab', FixupString(k))
    }

    lemma FixedSame(tab: Bytes, olds: seq<nat>, tab': Bytes, news: seq<nat>)
      requires Translated(tab, tab') && Fixed(olds, news) && forall k :: k in olds ==> Has(k)
      ensures SameStrings(tab, olds, tab', news)
    {
      forall i | 0 <= i < |olds| ensures SameString(tab, olds[i], tab', news[i]) {
        assert Has(olds[i]);
      }
    }

    /** copy the new table over the old one and blank the rest. */
    method StoreTable(newDynstr: array<Byte>)
      requires newDynstr.Length <= dynstr.Length && newDynstr != dynstr
      modifies dynstr
      ensures dynstr[..newDynstr.Length] == newDynstr[..]
      ensures forall i :: newDynstr.Length <= i < dynstr.Length ==> dynstr[i] == 0x20
    {
      Write(dynstr, 0, newDynstr[..]);
      for i := newDynstr.Length to dynstr.Length
        invariant dynstr[..newDynstr.Length] == newDynstr[..]
        invariant forall j :: newDynstr.Length <= j < i ==> dynstr[j] == 0x20
        modifies dynstr
      {
        dynstr[i] := 0x20;
      }
    }

    /** Collect, lay out, and, if that makes the table smaller, rewrite every reference and the
        table in place. Every reference then means the string it meant before. */
    method ReplaceStringTable() returns (done: bool, newSize: nat)
      requires Valid() && used == map[]
      requires dynstr.Length > 0 && dynstr[0] == 0
      modifies this`used, dynsym, dynamic, verD, verR, dynstr
      ensures !done ==> newSize >= dynstr.Length
      ensures !done ==> dynsym[..] == old(dynsym[..]) && dynamic[..] == old(dynamic[..]) && verD[..] == old(verD[..])
                        && verR[..] == old(verR[..]) && dynstr[..] == old(dynstr[..])
      ensures done ==>
        && 0 < newSize < dynstr.Length
        && newSize == 1 + SumSizes(used.Keys, Strings())
        && (forall k :: k in used <==>
              k != 0 && IsReference(old(dynsym[..]), old(dynamic[..]), old(verD[..]), old(verR[..]), k))
        && dynstr[newSize - 1] == 0 && (forall i :: newSize <= i < dynstr.Length ==> dynstr[i] == 0x20)
        && SameStrings(old(dynstr[..]), old(dynsym[..]), dynstr[..newSize], dynsym[..])
        && SameDynamic(old(dynstr[..]), old(dynamic[..]), dynstr[..newSize], dynamic[..])
        && (forall i :: 0 <= i < verD.Length ==> SameStrings(old(dynstr[..]), old(verD[i]), dynstr[..newSize], verD[i]))
        && (forall i :: 0 <= i < verR.Length ==> SameVerneed(old(dynstr[..]), old(verR[i]), dynstr[..newSize], verR[i]))
    {
      hide SameString, CString, Table, IsReference, Indexed, Lists, SameStrings, SameDynamic, SameVerneed;
      AddStrings();
      var newDynstr, order := GenerateNewDynstr();
      newSize := newDynstr.Length;
      done := newSize < dynstr.Length;
      if done { Rewrite(newDynstr, order); }
    }

    /** Fix up every reference and put the new table in the place of the old one. */
    method Rewrite(newDynstr: array<Byte>, ghost order: seq<nat>)
      requires Valid() && Collected() && Indexed(order) && newDynstr[..] == Table(order, Strings())
      requires newDynstr.Length < dynstr.Length && newDynstr != dynstr && newDynstr as object != dynsym && dynstr[0] == 0
      requires forall k :: IsReference(dynsym[..], dynamic[..], verD[..], verR[..], k) ==> Has(k)
      modifies dynsym, dynamic, verD, verR, dynstr
      ensures forall i :: newDynstr.Length <= i < dynstr.Length ==> dynstr[i] == 0x20
      ensures dynstr[..newDynstr.Length] == Table(order, Strings())
      ensures SameStrings(old(dynstr[..]), old(dynsym[..]), dynstr[..newDynstr.Length], dynsym[..])
      ensures SameDynamic(old(dynstr[..]), old(dynamic[..]), dynstr[..newDynstr.Length], dynamic[..])
      ensures forall i :: 0 <= i < verD.Length ==>
                SameStrings(old(dynstr[..]), old(verD[i]), dynstr[..newDynstr.Length], verD[i])
      ensures forall i :: 0 <= i < verR.Length ==>
                SameVerneed(old(dynstr[..]), old(verR[i]), dynstr[..newDynstr.Length], verR[i])
    {
      hide SameString, CString, Table, IsReference, Fixed, FixedDyn, FixedVerneed, Indexed, Lists;
      ghost var tab, syms, dyns, vds, vns := dynstr[..], dynsym[..], dynamic[..], verD[..], verR[..];
      FixStringsInDynsym();
      FixStringsInDynamic();
      FixStringsInVerD();
      FixStringsInVerR();
      StoreTable(newDynstr);
      ghost var tab' := dynstr[..newDynstr.Length];
      forall k | Has(k) ensures SameString(tab, k, tab', FixupString(k)) { FixupMeans(order, tab, k); }
      DynsymMeans(tab, syms, dyns, vds, vns, tab', dynsym[..]);
      DynamicMeans(tab, syms, dyns, vds, vns, tab', dynamic[..]);
      VersionsMean(tab, syms, dyns, vds, vns, tab', verD[..], verR[..]);
    }

    lemma DynsymMeans(tab: Bytes, syms: seq<nat>, dyns: seq<Dyn<nat>>, vds: seq<seq<nat>>, vns: seq<Verneed>, tab': Bytes,
                      syms': seq<nat>)
      requires Translated(tab, tab') && forall k :: IsReference(syms, dyns, vds, vns, k) ==> Has(k)
      requires Fixed(syms, syms')
      ensures SameStrings(tab, syms, tab', syms')
    {
      forall k | k in syms ensures Has(k) { assert IsReference(syms, dyns, vds, vns, k); }
      FixedSame(tab, syms, tab', syms');
    }

    lemma DynamicMeans(tab: Bytes, syms: seq<nat>, dyns: seq<Dyn<nat>>, vds: seq<seq<nat>>, vns: seq<Verneed>, tab': Bytes,
                       dyns': seq<Dyn<nat>>)
      requires Translated(tab, tab') && forall k :: IsReference(syms, dyns, vds, vns, k) ==> Has(k)
      requires |dyns'| == |dyns| && forall i :: 0 <= i < |dyns| ==>
                 if i < Entries(dyns) then FixedDyn(dyns[i], dyns'[i]) else dyns'[i] == dyns[i]
      ensures SameDynamic(tab, dyns, tab', dyns')
    {
      forall i | 0 <= i < Entries(dyns) && NamesString(dyns[i].tag)
        ensures SameString(tab, dyns[i].val, tab', dyns'[i].val)
      {
        assert IsReference(syms, dyns, vds, vns, dyns[i].val) && Has(dyns[i].val);
        assert FixedDyn(dyns[i], dyns'[i]);
      }
    }

    lemma VersionsMean(tab: Bytes, syms: seq<nat>, dyns: seq<Dyn<nat>>, vds: seq<seq<nat>>, vns: seq<Verneed>, tab': Bytes,
                       vds': seq<seq<nat>>, vns': seq<Verneed>)
      requires Translated(tab, tab') && forall k :: IsReference(syms, dyns, vds, vns, k) ==> Has(k)
      requires |vds'| == |vds| && forall i :: 0 <= i < |vds| ==> Fixed(vds[i], vds'[i])
      requires |vns'| == |vns| && forall i :: 0 <= i < |vns| ==> FixedVerneed(vns[i], vns'[i])
      ensures forall i :: 0 <= i < |vds| ==> SameStrings(tab, vds[i], tab', vds'[i])
      ensures forall i :: 0 <= i < |vns| ==> SameVerneed(tab, vns[i], tab', vns'[i])
    {
      forall i | 0 <= i < |vds| ensures SameStrings(tab, vds[i], tab', vds'[i]) {
        forall k | k in vds[i] ensures Has(k) { assert IsReference(syms, dyns, vds, vns, k); }
        FixedSame(tab, vds[i], tab', vds'[i]);
      }
      forall i | 0 <= i < |vns| ensures SameVerneed(tab, vns[i], tab', vns'[i]) {
        forall k | k == vns[i].file || k in vns[i].auxNames ensures Has(k) { assert IsReference(syms, dyns, vds, vns, k); }
        FixedSame(tab, vns[i].auxNames, tab', vns'[i].auxNames);
        assert FixedVerneed(vns[i], vns'[i]) && SameString(tab, vns[i].file, tab', FixupString(vns[i].file));
      }
    }
  }
}
