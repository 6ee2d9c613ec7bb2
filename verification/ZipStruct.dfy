/** Little-endian records of a zip archive, as optimizejars.py packs and reads them:
    a run of fixed-width numbers followed by strings whose lengths are themselves
    numbers of the record (APPNOTE sections 4.3.7, 4.3.12 and 4.3.16). */
module ZipStruct {

  import opened Basics
  import opened LittleEndian

  // ---------- formats ----------

  /** widths[i] is the size in bytes of number i; string j has as many bytes as number lengths[j] says. */
  datatype Format = Format(widths: seq<nat>, lengths: seq<nat>) {
    predicate Valid() {
      forall j :: 0 <= j < |lengths| ==> lengths[j] < |widths|
    }
  }

  datatype Record = Record(nums: seq<nat>, strs: seq<Bytes>)

  function SizeOf(widths: seq<nat>): nat {
    if widths == [] then 0 else widths[0] + SizeOf(widths[1..])
  }

  function Concat(strs: seq<Bytes>): Bytes {
    if strs == [] then [] else strs[0] + Concat(strs[1..])
  }

  function PackNums(widths: seq<nat>, nums: seq<nat>): (bs: Bytes)
    requires |widths| == |nums|
    ensures |bs| == SizeOf(widths)
  {
    if widths == [] then [] else EncodeLE(widths[0], nums[0]) + PackNums(widths[1..], nums[1..])
  }

  function UnpackNums(widths: seq<nat>, bs: Bytes): (nums: seq<nat>)
    requires |bs| == SizeOf(widths)
    ensures |nums| == |widths|
  {
    if widths == [] then []
    else [DecodeLE(bs[..widths[0]])] + UnpackNums(widths[1..], bs[widths[0]..])
  }

  /** Every number fits its width, so that struct.pack accepts the record. */
  predicate Fits(widths: seq<nat>, nums: seq<nat>) {
    |widths| == |nums| && forall i :: 0 <= i < |widths| ==> nums[i] < Pow256(widths[i])
  }

  /** The strings have the lengths the numbers announce. */
  predicate Consistent(f: Format, r: Record)
    requires f.Valid()
  {
    && Fits(f.widths, r.nums)
    && |r.strs| == |f.lengths|
    && forall j :: 0 <= j < |r.strs| ==> |r.strs[j]| == r.nums[f.lengths[j]]
  }

  function Pack(f: Format, r: Record): (bs: Bytes)
    requires |f.widths| == |r.nums|
    ensures |bs| == SizeOf(f.widths) + |Concat(r.strs)|
  {
    PackNums(f.widths, r.nums) + Concat(r.strs)
  }

  // ---------- reading ----------

  function Min(a: int, b: int): int { if a < b then a else b }

  /** A Python slice: silently cut at the end of the data. */
  function Slice(data: Bytes, pos: nat, len: nat): (s: Bytes)
    ensures pos + len <= |data| ==> s == data[pos..pos + len]
    ensures |s| <= len
  {
    data[Min(pos, |data|)..Min(pos + len, |data|)]
  }

  function StrLens(lengths: seq<nat>, nums: seq<nat>): (ls: seq<nat>)
    requires forall j :: 0 <= j < |lengths| ==> lengths[j] < |nums|
    ensures |ls| == |lengths|
    ensures forall j :: 0 <= j < |ls| ==> ls[j] == nums[lengths[j]]
  {
    seq(|lengths|, j requires 0 <= j < |lengths| => nums[lengths[j]])
  }

  function ReadStrs(data: Bytes, lens: seq<nat>, pos: nat): (strs: seq<Bytes>)
    ensures |strs| == |lens|
  {
    if lens == [] then [] else [Slice(data, pos, lens[0])] + ReadStrs(data, lens[1..], pos + lens[0])
  }

  /** What read_struct returns at an offset: an error when the numbers are cut short. */
  function Read(data: Bytes, f: Format, pos: nat): (r: Option<Record>)
    requires f.Valid()
    ensures r.Some? ==> |r.value.nums| == |f.widths| && |r.value.strs| == |f.lengths|
  {
    var size := SizeOf(f.widths);
    if pos + size > |data| then None
    else
      var nums := UnpackNums(f.widths, data[pos..pos + size]);
      Some(Record(nums, ReadStrs(data, StrLens(f.lengths, nums), pos + size)))
  }

  /** Where the read cursor stands after read_struct. */
  function ReadEnd(f: Format, r: Record, pos: nat): nat
    requires f.Valid() && |r.nums| == |f.widths|
  {
    pos + SizeOf(f.widths) + SizeOf(StrLens(f.lengths, r.nums))
  }

  lemma SizeOfTwo(a: nat, b: nat)
    ensures SizeOf([a, b]) == a + b
  {
    assert [a, b][1..] == [b] && [b][1..] == [];
    assert SizeOf([b]) == b;
  }

  lemma ConcatTwo(a: Bytes, b: Bytes)
    ensures Concat([a, b]) == a + b
  {
    assert [a, b][1..] == [b] && [b][1..] == [];
    assert Concat([b]) == b;
  }

  lemma ConcatThree(a: Bytes, b: Bytes, c: Bytes)
    ensures Concat([a, b, c]) == a + b + c
  {
    assert [a, b, c][1..] == [b, c];
    ConcatTwo(b, c);
    assert a + (b + c) == a + b + c;
  }

  lemma {:induction false} SizeOfAppend(a: seq<nat>, b: seq<nat>)
    ensures SizeOf(a + b) == SizeOf(a) + SizeOf(b)
  {
    if a == [] {
      assert a + b == b;
    } else {
      assert (a + b)[1..] == a[1..] + b;
      SizeOfAppend(a[1..], b);
    }
  }

  lemma {:induction false} SizeOfRun(s: seq<nat>, w: nat)
    requires forall i :: 0 <= i < |s| ==> s[i] == w
    ensures SizeOf(s) == |s| * w
  {
    if s != [] { SizeOfRun(s[1..], w); }
  }

  // ---------- round trips ----------

  lemma FitsCons(widths: seq<nat>, nums: seq<nat>)
    requires widths != [] && nums != [] && nums[0] < Pow256(widths[0]) && Fits(widths[1..], nums[1..])
    ensures Fits(widths, nums)
  {
    forall i | 0 <= i < |widths| ensures nums[i] < Pow256(widths[i]) {
      if i > 0 { assert nums[i] == nums[1..][i - 1] && widths[i] == widths[1..][i - 1]; }
    }
  }

  lemma FitsTail(widths: seq<nat>, nums: seq<nat>)
    requires widths != [] && Fits(widths, nums)
    ensures nums[0] < Pow256(widths[0]) && Fits(widths[1..], nums[1..])
  {
    forall i | 0 <= i < |widths[1..]| ensures nums[1..][i] < Pow256(widths[1..][i]) {
      assert nums[1..][i] == nums[i + 1] && widths[1..][i] == widths[i + 1];
    }
  }

  lemma {:induction false} PackUnpackNums(widths: seq<nat>, bs: Bytes)
    requires |bs| == SizeOf(widths)
    ensures PackNums(widths, UnpackNums(widths, bs)) == bs
    ensures Fits(widths, UnpackNums(widths, bs))
  {
    hide Fits, EncodeLE, DecodeLE, Pow256;
    var nums := UnpackNums(widths, bs);
    if widths == [] {
      NothingFits(nums);
    } else {
      var w := widths[0];
      EncodeDecode(bs[..w]);
      PackUnpackNums(widths[1..], bs[w..]);
      assert nums[1..] == UnpackNums(widths[1..], bs[w..]);
      assert bs == bs[..w] + bs[w..];
      FitsCons(widths, nums);
    }
  }

  lemma NothingFits(nums: seq<nat>)
    requires nums == []
    ensures Fits([], nums)
  {
  }

  lemma {:induction false} UnpackPackNums(widths: seq<nat>, nums: seq<nat>)
    requires Fits(widths, nums)
    ensures |widths| == |nums| && UnpackNums(widths, PackNums(widths, nums)) == nums
  {
    if widths != [] {
      var w := widths[0];
      var bs := PackNums(widths, nums);
      FitsTail(widths, nums);
      DecodeEncode(w, nums[0]);
      assert bs[..w] == EncodeLE(w, nums[0]) && bs[w..] == PackNums(widths[1..], nums[1..]);
      UnpackPackNums(widths[1..], nums[1..]);
    }
  }

  lemma {:induction false} ConcatReadStrs(data: Bytes, lens: seq<nat>, pos: nat)
    requires pos <= |data|
    ensures Concat(ReadStrs(data, lens, pos)) == Slice(data, pos, SizeOf(lens))
  {
    if lens != [] {
      var strs := ReadStrs(data, lens, pos);
      assert strs[1..] == ReadStrs(data, lens[1..], pos + lens[0]);
      if pos + lens[0] <= |data| {
        ConcatReadStrs(data, lens[1..], pos + lens[0]);
      } else {
        ConcatPastEnd(data, lens[1..], pos + lens[0]);
      }
    }
  }

  lemma {:induction false} ConcatPastEnd(data: Bytes, lens: seq<nat>, pos: nat)
    requires pos >= |data|
    ensures Concat(ReadStrs(data, lens, pos)) == []
  {
    if lens != [] {
      var strs := ReadStrs(data, lens, pos);
      assert strs[1..] == ReadStrs(data, lens[1..], pos + lens[0]);
      ConcatPastEnd(data, lens[1..], pos + lens[0]);
    }
  }

  /** The "Serialization fail" check of read_struct can never fire, even on a record
      whose strings are cut short by the end of the file. */
  lemma SerializationNeverFails(data: Bytes, f: Format, pos: nat)
    requires f.Valid() && Read(data, f, pos).Some?
    ensures var r := Read(data, f, pos).value;
            Pack(f, r) == Slice(data, pos, ReadEnd(f, r, pos) - pos)
  {
    hide UnpackNums, PackNums, ReadStrs, Concat, Slice;
    var size := SizeOf(f.widths);
    var r := Read(data, f, pos).value;
    var lens := StrLens(f.lengths, r.nums);
    PackUnpackNums(f.widths, data[pos..pos + size]);
    ConcatReadStrs(data, lens, pos + size);
    SliceSplit(data, pos, size, SizeOf(lens));
  }

  lemma SliceSplit(data: Bytes, pos: nat, n: nat, m: nat)
    requires pos + n <= |data|
    ensures Slice(data, pos, n + m) == data[pos..pos + n] + Slice(data, pos + n, m)
  {
  }

  /** A record that ends inside the file is consistent and its bytes are exactly its packing. */
  lemma ReadInside(data: Bytes, f: Format, pos: nat)
    requires f.Valid() && Read(data, f, pos).Some?
    requires ReadEnd(f, Read(data, f, pos).value, pos) <= |data|
    ensures var r := Read(data, f, pos).value;
            && Consistent(f, r)
            && pos + |Pack(f, r)| == ReadEnd(f, r, pos)
            && data[pos..ReadEnd(f, r, pos)] == Pack(f, r)
  {
    hide UnpackNums, PackNums, ReadStrs, Concat, Fits, Slice;
    var r := Read(data, f, pos).value;
    SerializationNeverFails(data, f, pos);
    PackUnpackNums(f.widths, data[pos..pos + SizeOf(f.widths)]);
    ReadStrsLengths(data, StrLens(f.lengths, r.nums), pos + SizeOf(f.widths));
  }

  lemma {:induction false} ReadStrsLengths(data: Bytes, lens: seq<nat>, pos: nat)
    requires pos + SizeOf(lens) <= |data|
    ensures forall j :: 0 <= j < |lens| ==> |ReadStrs(data, lens, pos)[j]| == lens[j]
  {
    if lens != [] {
      ReadStrsLengths(data, lens[1..], pos + lens[0]);
      forall j | 0 <= j < |lens| ensures |ReadStrs(data, lens, pos)[j]| == lens[j] {
        if j > 0 { assert lens[j] == lens[1..][j - 1]; }
      }
    }
  }

  lemma {:induction false} ReadConcat(data: Bytes, strs: seq<Bytes>, lens: seq<nat>, pos: nat)
    requires |strs| == |lens| && forall j :: 0 <= j < |strs| ==> |strs[j]| == lens[j]
    requires pos + |Concat(strs)| <= |data| && data[pos..pos + |Concat(strs)|] == Concat(strs)
    ensures ReadStrs(data, lens, pos) == strs && SizeOf(lens) == |Concat(strs)|
  {
    if strs != [] {
      var n := lens[0];
      var c := Concat(strs);
      assert data[pos..pos + n] == c[..n] == strs[0] by {
        assert data[pos..pos + |c|][..n] == data[pos..pos + n];
      }
      assert data[pos + n..pos + |c|] == Concat(strs[1..]) by {
        assert data[pos..pos + |c|][n..] == data[pos + n..pos + |c|];
        assert c[n..] == Concat(strs[1..]);
      }
      forall j | 0 <= j < |strs[1..]| ensures |strs[1..][j]| == lens[1..][j] {
        assert strs[1..][j] == strs[j + 1] && lens[1..][j] == lens[j + 1];
      }
      ReadConcat(data, strs[1..], lens[1..], pos + n);
    }
  }

  /** Reading where a consistent record was packed gives that record back. */
  lemma ReadPacked(data: Bytes, f: Format, r: Record, pos: nat)
    requires f.Valid() && Consistent(f, r)
    requires pos + |Pack(f, r)| <= |data| && data[pos..pos + |Pack(f, r)|] == Pack(f, r)
    ensures Read(data, f, pos) == Some(r)
    ensures ReadEnd(f, r, pos) == pos + |Pack(f, r)|
  {
    hide UnpackNums, PackNums, ReadStrs, Concat, Fits;
    UnpackPackNums(f.widths, r.nums);
    var size := SizeOf(f.widths);
    var p := Pack(f, r);
    PackedParts(f, r);
    SliceOfSlice(data, pos, |p|, 0, size);
    SliceOfSlice(data, pos, |p|, size, |p|);
    ReadConcat(data, r.strs, StrLens(f.lengths, r.nums), pos + size);
  }

  lemma PackedParts(f: Format, r: Record)
    requires |f.widths| == |r.nums|
    ensures var p := Pack(f, r);
            && p[0..SizeOf(f.widths)] == PackNums(f.widths, r.nums)
            && p[SizeOf(f.widths)..|p|] == Concat(r.strs)
  {
  }

  /** Read depends only on the bytes of the record, not on where they are. */
  lemma ReadSame(data: Bytes, data': Bytes, f: Format, pos: nat, pos': nat, n: nat)
    requires f.Valid() && Read(data, f, pos).Some?
    requires ReadEnd(f, Read(data, f, pos).value, pos) == pos + n <= |data|
    requires pos' + n <= |data'| && data'[pos'..pos' + n] == data[pos..pos + n]
    ensures Read(data', f, pos') == Read(data, f, pos)
    ensures ReadEnd(f, Read(data, f, pos).value, pos') == pos' + n
  {
    hide Read, Pack, Consistent, ReadEnd;
    ReadInside(data, f, pos);
    ReadPacked(data', f, Read(data, f, pos).value, pos');
  }
}
