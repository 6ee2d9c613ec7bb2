/** The three record layouts of a zip archive and the positions of their numbers. */
module ZipFormats {
  import opened LittleEndian
  import opened ZipStruct

  /** A run of uint32 numbers. */
  function Words(n: nat): (ws: seq<nat>)
    ensures |ws| == n
  {
    seq(n, _ => 4)
  }

  /** A run of uint16 numbers. */
  function Halves(n: nat): (ws: seq<nat>)
    ensures |ws| == n
  {
    seq(n, _ => 2)
  }

  const LOCAL_WIDTHS: seq<nat> := Words(1) + Halves(5) + Words(3) + Halves(2)
  const LOCAL_TIME := 4
  const LOCAL_DATE := 5
  const LOCAL_SIZE := 7
  const LOCAL_NAME_LEN := 9
  const LOCAL_EXTRA_LEN := 10

  /** A local header with its data (section 4.3.7). */
  const LOCAL_FILE: Format := Format(LOCAL_WIDTHS, [LOCAL_NAME_LEN, LOCAL_EXTRA_LEN, LOCAL_SIZE])

  /** A local header without the data that follows it. */
  const LOCAL_HEADER: Format := Format(LOCAL_WIDTHS, [LOCAL_NAME_LEN, LOCAL_EXTRA_LEN])

  const CDIR_WIDTHS: seq<nat> := Words(1) + Halves(6) + Words(3) + Halves(5) + Words(2)
  const CDIR_TIME := 5
  const CDIR_DATE := 6
  const CDIR_NAME_LEN := 10
  const CDIR_EXTRA_LEN := 11
  const CDIR_COMMENT_LEN := 12
  const CDIR_OFFSET := 16

  /** A directory entry (section 4.3.12). */
  const CDIR_ENTRY: Format := Format(CDIR_WIDTHS, [CDIR_NAME_LEN, CDIR_EXTRA_LEN, CDIR_COMMENT_LEN])

  const END_WIDTHS: seq<nat> := Words(1) + Halves(4) + Words(2) + Halves(1)
  const END_SIG := 0
  const END_DISK_ENTRIES := 3
  const END_ENTRIES := 4
  const END_CDIR_SIZE := 5
  const END_CDIR_OFFSET := 6

  /** The end of central directory record without its comment (section 4.3.16). */
  const CDIR_END: Format := Format(END_WIDTHS, [])

  const NAME := 0
  const EXTRA := 1
  const DATA := 2

  const LOCAL_SIGNATURE: nat := 0x04034b50
  const END_SIGNATURE: nat := 0x06054b50

  /** The signatures in the file: PK and 3, 4 or 5, 6. */
  lemma SignatureBytes()
    ensures EncodeLE(4, LOCAL_SIGNATURE) == [0x50, 0x4b, 3, 4] && EncodeLE(4, END_SIGNATURE) == [0x50, 0x4b, 5, 6]
  {
    FourBytes(LOCAL_SIGNATURE);
    FourBytes(END_SIGNATURE);
  }

  lemma FourBytes(v: nat)
    ensures EncodeLE(4, v) == [v % 256, v / 256 % 256, v / 256 / 256 % 256, v / 256 / 256 / 256 % 256]
  {
    assert EncodeLE(3, v / 256) == [v / 256 % 256] + EncodeLE(2, v / 256 / 256);
    assert EncodeLE(1, v / 256 / 256 / 256) == [v / 256 / 256 / 256 % 256];
  }

  lemma FixedSizes()
    ensures SizeOf(LOCAL_WIDTHS) == 30 && SizeOf(CDIR_WIDTHS) == 46 && SizeOf(END_WIDTHS) == 22
  {
    SizeOfRun(Words(1), 4);
    SizeOfRun(Words(2), 4);
    SizeOfRun(Words(3), 4);
    SizeOfRun(Halves(1), 2);
    SizeOfRun(Halves(2), 2);
    SizeOfRun(Halves(4), 2);
    SizeOfRun(Halves(5), 2);
    SizeOfRun(Halves(6), 2);
    SizeOfAppend(Words(1) + Halves(5) + Words(3), Halves(2));
    SizeOfAppend(Words(1) + Halves(5), Words(3));
    SizeOfAppend(Words(1), Halves(5));
    SizeOfAppend(Words(1) + Halves(6) + Words(3) + Halves(5), Words(2));
    SizeOfAppend(Words(1) + Halves(6) + Words(3), Halves(5));
    SizeOfAppend(Words(1) + Halves(6), Words(3));
    SizeOfAppend(Words(1), Halves(6));
    SizeOfAppend(Words(1) + Halves(4) + Words(2), Halves(1));
    SizeOfAppend(Words(1) + Halves(4), Words(2));
    SizeOfAppend(Words(1), Halves(4));
  }

  /** How many bytes come in front of a number. */
  function ByteAt(widths: seq<nat>, field: nat): nat
    requires field <= |widths|
  {
    SizeOf(widths[..field])
  }

  /** The numbers this project names, at the places section 4.3.7 gives them. */
  lemma LocalPlaces()
    ensures ByteAt(LOCAL_WIDTHS, LOCAL_TIME) == 10 && ByteAt(LOCAL_WIDTHS, LOCAL_DATE) == 12
    ensures ByteAt(LOCAL_WIDTHS, LOCAL_SIZE) == 18 && ByteAt(LOCAL_WIDTHS, LOCAL_NAME_LEN) == 26
    ensures ByteAt(LOCAL_WIDTHS, LOCAL_EXTRA_LEN) == 28
    ensures ByteAt(LOCAL_WIDTHS, 0) == 0 && ByteAt(LOCAL_WIDTHS, 1) == 4 && ByteAt(LOCAL_WIDTHS, 2) == 6 && ByteAt(LOCAL_WIDTHS, 3) == 8
    ensures ByteAt(LOCAL_WIDTHS, 6) == 14 && ByteAt(LOCAL_WIDTHS, 8) == 22
  {
    var l := LOCAL_WIDTHS;
    ByteAfter(l, 1); ByteAfter(l, 2); ByteAfter(l, 3); ByteAfter(l, 4); ByteAfter(l, 5);
    ByteAfter(l, 6); ByteAfter(l, 7); ByteAfter(l, 8); ByteAfter(l, 9); ByteAfter(l, 10);
  }

  /** Those of a directory entry, by section 4.3.12. */
  lemma EntryPlaces()
    ensures ByteAt(CDIR_WIDTHS, CDIR_TIME) == 12 && ByteAt(CDIR_WIDTHS, CDIR_DATE) == 14
    ensures ByteAt(CDIR_WIDTHS, CDIR_NAME_LEN) == 28 && ByteAt(CDIR_WIDTHS, CDIR_EXTRA_LEN) == 30
    ensures ByteAt(CDIR_WIDTHS, CDIR_COMMENT_LEN) == 32 && ByteAt(CDIR_WIDTHS, CDIR_OFFSET) == 42
  {
    var c := CDIR_WIDTHS;
    ByteAfter(c, 1); ByteAfter(c, 2); ByteAfter(c, 3); ByteAfter(c, 4); ByteAfter(c, 5); ByteAfter(c, 6);
    ByteAfter(c, 7); ByteAfter(c, 8); ByteAfter(c, 9); ByteAfter(c, 10); ByteAfter(c, 11); ByteAfter(c, 12);
    ByteAfter(c, 13); ByteAfter(c, 14); ByteAfter(c, 15); ByteAfter(c, 16);
  }

  /** Those of the end record, by section 4.3.16. */
  lemma EndPlaces()
    ensures ByteAt(END_WIDTHS, END_SIG) == 0
    ensures ByteAt(END_WIDTHS, END_DISK_ENTRIES) == 8 && ByteAt(END_WIDTHS, END_ENTRIES) == 10
    ensures ByteAt(END_WIDTHS, END_CDIR_SIZE) == 12 && ByteAt(END_WIDTHS, END_CDIR_OFFSET) == 16
  {
    var e := END_WIDTHS;
    ByteAfter(e, 1); ByteAfter(e, 2); ByteAfter(e, 3); ByteAfter(e, 4); ByteAfter(e, 5); ByteAfter(e, 6);
  }

  lemma ByteAfter(widths: seq<nat>, field: nat)
    requires 0 < field <= |widths|
    ensures ByteAt(widths, field) == ByteAt(widths, field - 1) + widths[field - 1] && ByteAt(widths, 0) == 0
  {
    assert widths[..field] == widths[..field - 1] + [widths[field - 1]];
    SizeOfAppend(widths[..field - 1], [widths[field - 1]]);
    assert SizeOf([widths[field - 1]]) == widths[field - 1] + SizeOf([]);
  }

  /** A packed number stands where its format says. */
  lemma {:induction false} NumAt(widths: seq<nat>, nums: seq<nat>, k: nat)
    requires k < |widths| == |nums|
    ensures ByteAt(widths, k) + widths[k] <= SizeOf(widths)
    ensures PackNums(widths, nums)[ByteAt(widths, k)..ByteAt(widths, k) + widths[k]] == EncodeLE(widths[k], nums[k])
  {
    hide EncodeLE;
    var bs := PackNums(widths, nums);
    if k > 0 {
      NumAt(widths[1..], nums[1..], k - 1);
      assert widths[..k][1..] == widths[1..][..k - 1];
      var at := ByteAt(widths[1..], k - 1);
      assert ByteAt(widths, k) == widths[0] + at;
      assert bs[widths[0]..] == PackNums(widths[1..], nums[1..]);
      SliceOfSlice(bs, widths[0], |bs| - widths[0], at, at + widths[k]);
    } else {
      assert widths[..0] == [];
    }
  }
}
