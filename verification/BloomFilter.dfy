/** BloomFilter.h: a counting Bloom filter with 8-bit counters that stick when full. */
module BloomFilter {

  type Hash = h: nat | h < 0x1_0000_0000 witness 0
  type Counter = c: nat | c < 256 witness 0

  const FULL: Counter := 255
  const KEY_SHIFT: nat := 16

  function Pow2(n: nat): (p: nat)
    ensures p > 0
  {
    if n == 0 then 1 else 2 * Pow2(n - 1)
  }

  function Hash1(h: Hash, size: nat): (i: nat)
    requires size > 0
    ensures i < size
  {
    h % size
  }

  function Hash2(h: Hash, size: nat): (i: nat)
    requires size > 0
    ensures i < size
  {
    h / Pow2(KEY_SHIFT) % size
  }

  function Up(c: Counter): Counter {
    if c == FULL then c else c + 1
  }

  /** The counter is unsigned: taking one from zero gives 255. */
  function Down(c: Counter): Counter {
    if c == FULL then c else if c == 0 then 255 else c - 1
  }

  function Added(cs: seq<Counter>, h: Hash): seq<Counter>
    requires cs != []
  {
    var i, j := Hash1(h, |cs|), Hash2(h, |cs|);
    var cs := cs[i := Up(cs[i])];
    cs[j := Up(cs[j])]
  }

  function Removed(cs: seq<Counter>, h: Hash): seq<Counter>
    requires cs != []
  {
    var i, j := Hash1(h, |cs|), Hash2(h, |cs|);
    var cs := cs[i := Down(cs[i])];
    cs[j := Down(cs[j])]
  }

  /** How often one item hits slot i: twice if both its slots are i. */
  function Weight(h: Hash, size: nat, i: nat): nat
    requires size > 0
  {
    (if Hash1(h, size) == i then 1 else 0) + (if Hash2(h, size) == i then 1 else 0)
  }

  ghost function Hits(items: multiset<Hash>, size: nat, i: nat): nat
    requires size > 0
    decreases |items|
  {
    if items == multiset{} then 0
    else
      var h :| h in items;
      Weight(h, size, i) + Hits(items - multiset{h}, size, i)
  }

  lemma {:induction false} HitsOf(items: multiset<Hash>, h: Hash, size: nat, i: nat)
    requires size > 0 && h in items
    ensures Hits(items, size, i) == Weight(h, size, i) + Hits(items - multiset{h}, size, i)
    decreases |items|
  {
    hide Weight;
    var x :| x in items && Hits(items, size, i) == Weight(x, size, i) + Hits(items - multiset{x}, size, i);
    if x != h {
      HitsOf(items - multiset{x}, h, size, i);
      HitsOf(items - multiset{h}, x, size, i);
      assert items - multiset{x} - multiset{h} == items - multiset{h} - multiset{x};
    }
  }

  /** Every counter is full for good, or exactly the number of hits. */
  ghost predicate Exact(cs: seq<Counter>, items: multiset<Hash>) {
    cs != [] && forall i :: 0 <= i < |cs| ==> cs[i] == FULL || cs[i] == Hits(items, |cs|, i)
  }

  lemma AddExact(cs: seq<Counter>, items: multiset<Hash>, h: Hash)
    requires Exact(cs, items)
    ensures Exact(Added(cs, h), items + multiset{h})
  {
    var cs' := Added(cs, h);
    forall i | 0 <= i < |cs'| ensures cs'[i] == FULL || cs'[i] == Hits(items + multiset{h}, |cs'|, i) {
      HitsOf(items + multiset{h}, h, |cs|, i);
      assert items + multiset{h} - multiset{h} == items;
    }
  }

  /** Removing what was added takes nothing below zero. */
  lemma RemoveExact(cs: seq<Counter>, items: multiset<Hash>, h: Hash)
    requires Exact(cs, items) && h in items
    ensures Exact(Removed(cs, h), items - multiset{h})
    ensures forall i :: 0 <= i < |cs| ==> Removed(cs, h)[i] <= cs[i]
  {
    var cs' := Removed(cs, h);
    forall i | 0 <= i < |cs'|
      ensures (cs'[i] == FULL || cs'[i] == Hits(items - multiset{h}, |cs'|, i)) && cs'[i] <= cs[i]
    {
      HitsOf(items, h, |cs|, i);
    }
  }

  /** A remove wraps a counter round exactly if it finds one of its slots at zero, or both in one slot at one. */
  lemma RemoveWrapsIff(cs: seq<Counter>, h: Hash)
    requires cs != []
    ensures var i, j := Hash1(h, |cs|), Hash2(h, |cs|);
            (exists k :: 0 <= k < |cs| && Removed(cs, h)[k] > cs[k]) <==> cs[i] == 0 || cs[j] == 0 || (i == j && cs[i] == 1)
  {
    var i, j := Hash1(h, |cs|), Hash2(h, |cs|);
    var cs' := Removed(cs, h);
    if cs[i] == 0 || (i == j && cs[i] == 1) {
      assert cs'[i] > cs[i];
    } else if cs[j] == 0 {
      assert cs'[j] > cs[j];
    }
  }

  predicate Sees(cs: seq<Counter>, h: Hash)
    requires cs != []
  {
    cs[Hash1(h, |cs|)] != 0 && cs[Hash2(h, |cs|)] != 0
  }

  /** No false negatives. */
  lemma PresentIsSeen(cs: seq<Counter>, items: multiset<Hash>, h: Hash)
    requires Exact(cs, items) && h in items
    ensures Sees(cs, h)
  {
    HitsOf(items, h, |cs|, Hash1(h, |cs|));
    HitsOf(items, h, |cs|, Hash2(h, |cs|));
  }

  /** A counter is full for good, or an item of the filter has it as one of its two slots: the low bits of its hash, and
      the bits from the sixteenth on. */
  ghost predicate SlotHit(cs: seq<Counter>, items: multiset<Hash>, i: nat)
    requires i < |cs|
  {
    cs[i] == 255 || exists x :: x in items && (x % |cs| == i || x / 65536 % |cs| == i)
  }

  lemma Slots(h: Hash, size: nat)
    requires size > 0
    ensures Hash1(h, size) == h % size && Hash2(h, size) == h / 65536 % size
  {
    assert Pow2(4) == 16;
    assert Pow2(8) == 256;
    assert Pow2(12) == 4096;
    assert Pow2(16) == 65536;
  }

  lemma {:induction false} HitsPositive(items: multiset<Hash>, size: nat, i: nat)
    requires size > 0
    ensures Hits(items, size, i) > 0 <==> exists x :: x in items && (Hash1(x, size) == i || Hash2(x, size) == i)
    decreases |items|
  {
    hide Hash1, Hash2;
    if items != multiset{} {
      var h :| h in items && Hits(items, size, i) == Weight(h, size, i) + Hits(items - multiset{h}, size, i);
      HitsPositive(items - multiset{h}, size, i);
      if Hits(items, size, i) > 0 && Weight(h, size, i) == 0 {
        var x :| x in items - multiset{h} && (Hash1(x, size) == i || Hash2(x, size) == i);
        assert x in items;
      }
    }
    if x :| x in items && (Hash1(x, size) == i || Hash2(x, size) == i) { HitsOf(items, x, size, i); }
  }

  /** What is seen: an item is, present or not, exactly if both its slots are hit. */
  lemma SeenIff(cs: seq<Counter>, items: multiset<Hash>, h: Hash)
    requires Exact(cs, items)
    ensures Sees(cs, h) <==> SlotHit(cs, items, h % |cs|) && SlotHit(cs, items, h / 65536 % |cs|)
  {
    hide Hash1, Hash2;
    var n := |cs|;
    Slots(h, n);
    forall x | x in items ensures Hash1(x, n) == x % n && Hash2(x, n) == x / 65536 % n { Slots(x, n); }
    HitsPositive(items, n, Hash1(h, n));
    HitsPositive(items, n, Hash2(h, n));
  }

  // ---------- histories ----------

  datatype Op = Add(h: Hash) | Remove(h: Hash) | Clear

  /** What is in the filter after a history, and whether every remove matched an add. */
  ghost function Items(ops: seq<Op>): multiset<Hash> {
    if ops == [] then multiset{}
    else
      var before := Items(ops[..|ops| - 1]);
      match ops[|ops| - 1]
      case Add(h) => before + multiset{h}
      case Remove(h) => before - multiset{h}
      case Clear => multiset{}
  }

  ghost predicate Matched(ops: seq<Op>) {
    forall n :: 0 <= n < |ops| && ops[n].Remove? ==> ops[n].h in Items(ops[..n])
  }

  class BloomFilter {
    const keySize: nat
    const counters: array<Counter>

    ghost predicate Valid()
      reads this
    {
      keySize <= KEY_SHIFT && counters.Length == Pow2(keySize)
    }

    constructor (keySize: nat)
      requires keySize <= KEY_SHIFT
      ensures Valid() && fresh(counters) && Exact(counters[..], multiset{}) && forall h :: !Sees(counters[..], h)
    {
      this.keySize := keySize;
      counters := new Counter[Pow2(keySize)];
      new;
      ClearAll();
    }

    method ClearAll()
      requires Valid()
      modifies counters
      ensures Exact(counters[..], multiset{}) && (forall h :: !Sees(counters[..], h)) && forall k :: k in counters[..] ==> k == 0
    {
      for i := 0 to counters.Length
        invariant forall k :: 0 <= k < i ==> counters[k] == 0
      {
        counters[i] := 0;
      }
    }

    method AddHash(h: Hash)
      requires Valid()
      modifies counters
      ensures counters[..] == Added(old(counters[..]), h)
    {
      hide Hash1, Hash2;
      var slot1 := Hash1(h, counters.Length);
      if counters[slot1] != FULL { counters[slot1] := counters[slot1] + 1; }
      var slot2 := Hash2(h, counters.Length);
      if counters[slot2] != FULL { counters[slot2] := counters[slot2] + 1; }
    }

    method RemoveHash(h: Hash)
      requires Valid()
      modifies counters
      ensures counters[..] == Removed(old(counters[..]), h)
    {
      hide Hash1, Hash2;
      var slot1 := Hash1(h, counters.Length);
      if counters[slot1] != FULL { counters[slot1] := if counters[slot1] == 0 then 255 else counters[slot1] - 1; }
      var slot2 := Hash2(h, counters.Length);
      if counters[slot2] != FULL { counters[slot2] := if counters[slot2] == 0 then 255 else counters[slot2] - 1; }
    }

    method MightContain(h: Hash) returns (b: bool)
      requires Valid()
      ensures b == Sees(counters[..], h)
      ensures forall items :: Exact(counters[..], items) && h in items ==> b
      ensures forall items :: Exact(counters[..], items) ==>
                (b <==> SlotHit(counters[..], items, h % counters.Length) && SlotHit(counters[..], items, h / 65536 % counters.Length))
    {
      b := counters[Hash1(h, counters.Length)] != 0 && counters[Hash2(h, counters.Length)] != 0;
      forall items | Exact(counters[..], items) && h in items ensures b { PresentIsSeen(counters[..], items, h); }
      forall items | Exact(counters[..], items) { SeenIff(counters[..], items, h); }
    }

    /** Any history in which removes match adds: the counters are exact, so every item in the filter is seen. */
    method Run(ops: seq<Op>)
      requires Valid() && Exact(counters[..], multiset{}) && Matched(ops)
      modifies counters
      ensures Exact(counters[..], Items(ops))
      ensures forall h :: h in Items(ops) ==> Sees(counters[..], h)
    {
      for n := 0 to |ops|
        invariant Exact(counters[..], Items(ops[..n]))
      {
        ghost var cs := counters[..];
        assert ops[..n + 1][..n] == ops[..n];
        match ops[n]
        case Add(h) =>
          AddExact(cs, Items(ops[..n]), h);
          AddHash(h);
        case Remove(h) =>
          RemoveExact(cs, Items(ops[..n]), h);
          RemoveHash(h);
        case Clear => ClearAll();
      }
      assert ops[..|ops|] == ops;
      forall h | h in Items(ops) ensures Sees(counters[..], h) { PresentIsSeen(counters[..], Items(ops), h); }
    }
  }
}
