/** A Python file object opened in binary mode: contents and a cursor. */
module BinaryFile {
  import opened LittleEndian
  import opened ZipStruct

  function Zeros(n: nat): (bs: Bytes)
    ensures |bs| == n
  {
    seq(n, _ => 0)
  }

  /** Writing at a position; a gap past the end of the file is filled with zeros, unless nothing is written. */
  function Overwrite(data: Bytes, pos: nat, bs: Bytes): (r: Bytes)
    ensures |r| == if bs == [] || pos + |bs| <= |data| then |data| else pos + |bs|
    ensures pos <= |data| || bs != [] ==> r[pos..pos + |bs|] == bs
    ensures forall i :: 0 <= i < pos && i < |data| ==> r[i] == data[i]
    ensures forall i :: pos + |bs| <= i < |data| ==> r[i] == data[i]
    ensures bs != [] ==> forall i :: |data| <= i < pos ==> r[i] == 0
  {
    if bs == [] then data
    else
      var base := if pos <= |data| then data else data + Zeros(pos - |data|);
      base[..pos] + bs + base[Min(pos + |bs|, |base|)..]
  }

  lemma OverwriteAt(data: Bytes, pos: nat, bs: Bytes, i: nat)
    requires bs != [] && i < |Overwrite(data, pos, bs)|
    ensures Overwrite(data, pos, bs)[i] ==
            if pos <= i < pos + |bs| then bs[i - pos] else if i < |data| then data[i] else 0
  {
    var r := Overwrite(data, pos, bs);
    if pos <= i < pos + |bs| { assert r[i] == r[pos..pos + |bs|][i - pos]; }
  }

  /** Two writes in a row are one write. */
  lemma OverwriteTwice(data: Bytes, pos: nat, a: Bytes, b: Bytes)
    ensures Overwrite(Overwrite(data, pos, a), pos + |a|, b) == Overwrite(data, pos, a + b)
  {
    if a == [] || b == [] {
      assert a + b == if a == [] then b else a;
    } else {
      WrittenTwice(data, pos, a, b);
    }
  }

  lemma WrittenTwice(data: Bytes, pos: nat, a: Bytes, b: Bytes)
    requires a != [] && b != []
    ensures Overwrite(Overwrite(data, pos, a), pos + |a|, b) == Overwrite(data, pos, a + b)
  {
    hide Overwrite;
    var m := Overwrite(data, pos, a);
    var l, r := Overwrite(m, pos + |a|, b), Overwrite(data, pos, a + b);
    assert |l| == |r|;
    forall i | 0 <= i < |l| ensures l[i] == r[i] {
      OverwriteAt(m, pos + |a|, b, i);
      OverwriteAt(data, pos, a + b, i);
      if i < |m| { OverwriteAt(data, pos, a, i); }
    }
  }

  class File {
    var data: Bytes
    var pos: nat

    constructor (contents: Bytes, cursor: nat)
      ensures data == contents && pos == cursor
    {
      data, pos := contents, cursor;
    }

    method Seek(p: nat)
      modifies this`pos
      ensures pos == p
    {
      pos := p;
    }

    method Read(n: nat) returns (bs: Bytes)
      modifies this`pos
      ensures bs == Slice(data, old(pos), n) && pos == old(pos) + |bs|
    {
      bs := Slice(data, pos, n);
      pos := pos + |bs|;
    }

    method Write(bs: Bytes)
      modifies this
      ensures data == Overwrite(old(data), old(pos), bs) && pos == old(pos) + |bs|
    {
      data := Overwrite(data, pos, bs);
      pos := pos + |bs|;
    }

    /** truncate() with no argument: cut the file at the cursor. */
    method Truncate()
      modifies this`data
      ensures data == old(data)[..Min(pos, |old(data)|)]
    {
      data := data[..Min(pos, |data|)];
    }
  }
}
