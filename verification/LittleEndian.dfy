/** Bytes, and numbers stored in them least significant byte first. */
module LittleEndian {

  type Byte = b: int | 0 <= b < 256 witness 0
  type Bytes = seq<Byte>

  function Pow256(w: nat): (p: nat)
    ensures p > 0
  {
    if w == 0 then 1 else 256 * Pow256(w - 1)
  }

  function EncodeLE(w: nat, v: nat): (bs: Bytes)
    ensures |bs| == w
  {
    if w == 0 then [] else [v % 256] + EncodeLE(w - 1, v / 256)
  }

  function DecodeLE(bs: Bytes): (v: nat)
    ensures v < Pow256(|bs|)
  {
    if bs == [] then 0 else bs[0] + 256 * DecodeLE(bs[1..])
  }

  lemma {:induction false} DecodeEncode(w: nat, v: nat)
    requires v < Pow256(w)
    ensures DecodeLE(EncodeLE(w, v)) == v
  {
    if w > 0 {
      DecodeEncode(w - 1, v / 256);
      assert EncodeLE(w, v)[1..] == EncodeLE(w - 1, v / 256);
    }
  }

  lemma {:induction false} EncodeDecode(bs: Bytes)
    ensures EncodeLE(|bs|, DecodeLE(bs)) == bs
  {
    if bs != [] {
      EncodeDecode(bs[1..]);
      var v := DecodeLE(bs);
      assert v % 256 == bs[0] && v / 256 == DecodeLE(bs[1..]);
    }
  }

  lemma PowSizes()
    ensures Pow256(2) == 0x1_0000 && Pow256(4) == 0x1_0000_0000
  {
    assert Pow256(1) == 256;
    assert Pow256(2) == 256 * Pow256(1);
    assert Pow256(3) == 256 * Pow256(2);
  }

  /** A slice of a slice. */
  lemma SliceOfSlice<T>(a: seq<T>, i: nat, len: nat, lo: nat, hi: nat)
    requires i + len <= |a| && lo <= hi <= len
    ensures a[i..i + len][lo..hi] == a[i + lo..i + hi]
  {
    var x, y := a[i + lo..i + hi], a[i..i + len][lo..hi];
    assert |x| == |y|;
    forall k | 0 <= k < |x| ensures x[k] == y[k] {}
  }

  lemma SubSlice<T>(a: seq<T>, i: nat, b: seq<T>, j: nat, len: nat, lo: nat, hi: nat)
    requires i + len <= |a| && j + len <= |b| && b[j..j + len] == a[i..i + len] && lo <= hi <= len
    ensures b[j + lo..j + hi] == a[i + lo..i + hi]
  {
    SliceOfSlice(a, i, len, lo, hi);
    SliceOfSlice(b, j, len, lo, hi);
  }
}
